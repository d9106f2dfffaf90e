# GitHack3 in Dafny: rebuilding a `.git` directory from fetched bytes

GitHack3 recovers a Git repository from a web server that exposes its `.git` directory.
`GitScanner` works out where the repository lives and tries three plans in turn:
- plan A clones the repository directly;
- plan B downloads `.git` through a directory listing;
- plan C rebuilds what it can from individual files.

Plan C calls `fake_clone`, which works in three stages:
1. It fetches the reference files (`HEAD`, the refs, the reflogs, `packed-refs`, ...) and collects every 40-hex-digit hash they contain.
2. It walks the object graph from those hashes. Each loose object is fetched, inflated and decoded, and the hashes it names are fetched in turn.
3. It decodes the binary index and writes every blob it lists into the working tree.

The model follows the source module by module:

- `Parser` (`parser.dfy`) covers `lib/parser.py` except the index: `find_sha1` and the `tree`, `commit` and `blob` decoders.
  - Each decoder is a function on bytes, with the error cases of the source (no NUL, wrong type tag, no blank line in a commit, a header line without a space).
  - It has an encoder as its partner: an object git would write decodes back to what it was written from.
- `IndexFormat` (`index.dfy`) covers `parse_index`.
  - A `Cursor` class holds the memory-mapped file and its read position, and methods advance it field by field.
  - `ReadEntries` is the counted entry loop. Its invariants tie it to the layout function `DecodeEntry` and the prefix walk `Walk`.
  - `ParseIndex` is proved equal to the specification function `DecodeIndex`.
- `IndexEncoding` (`index_encoding.dfy`) writes an index as git does and proves that `parse_index` reads back every field of every entry, numbered from 1.
- `Net` (`net.dfy`) covers `lib/net.py`.
  - A `Host` class holds the local disk (a map of files plus a set of directories) and the log of HTTP requests. The remote site is a fixed function from a URL and an attempt number to the outcome of that attempt.
  - `get`, `save_file`, `download`, `load_or_get`, `isdirlist` and the `dirlist_spider` crawler are methods. Each is proved against a function of the old state.
- `Git` (`git.dfy`) covers `lib/git.py`.
  - `HashesWalk` is the `hashpool`/`usedhash` worklist. It is proved to visit exactly the hashes reachable from the seeds and to load each object path at most once.
  - `CollectSeeds` gathers the seed hashes, including the ones reached through `HEAD`.
  - `IndexExtract` restores each blob the index lists.
  - `FakeClone` chains the three stages.
- `Scan` (`scan.dfy`) covers `lib/scan.py`: a `GitScanner` class with the derived paths and the log of effects its plans cause. The plans are proved against functions of the collaborators' answers.
- `Bytes`, `Text` and `Wrappers` hold the Python `bytes` and `str` operations the source relies on:
  - `strip` and `split`;
  - hexlify, with its inverse;
  - big-endian integers;
  - UTF-8 decoding with the `'replace'` handler;
  - POSIX `os.path.join` and `dirname`;
  - `Option` and `Result`.

The model follows the code on these points, even where a reading of the project's description would suggest otherwise:
- In a commit with several `parent` lines, the last one is kept. The header loop writes every line into one dictionary, so later lines overwrite earlier ones.
- A non-NUL padding byte in the index raises inside the generator. That ends it, so no later entry is yielded.
- `isdirlist` fetches with `get`'s default of three attempts.
- `HEAD` is fetched but its own contents are not searched for hashes. Only the ref it names and that ref's log are.
- `get` retries only `HTTPError`. Any other exception propagates.
- In `hashes_walk`, the object load sits outside the `try`, so a transport exception ends the walk.

## Model

| member | source | states |
|---|---|---|
| Parser.FindSha1 | lib/parser.py:8-18 | nothing for input that is neither bytes nor str; every hash returned is 40 lower-case hex characters, is not the all-zero hash, and occurs in the (UTF-8 decoded) text |
| Parser.HexRunsFrom | lib/parser.py:13-14 | every match the `findall` scan collects is a 40-character hex string occurring in the text |
| Parser.HexRunsReach | lib/parser.py:13-14 | a scan starting at or before a hex run that no hex character precedes reports that run |
| Parser.FindSha1Finds | lib/parser.py:13-18 | a non-zero hash standing on its own in a str is found, whatever follows it |
| Parser.FindSha1FindsInBytes | lib/parser.py:9-18 | the same for a file of ASCII bytes such as a ref or a reflog |
| Parser.FindSha1DropsZero | lib/parser.py:15-17 | the all-zero hash is never returned |
| Parser.SplitObject | lib/parser.py:22 | fails exactly when there is no NUL; otherwise the header has no NUL and header, NUL and body make up the data |
| Parser.SplitObjectOf | lib/parser.py:22 | the split of `header + NUL + body` is that header and body |
| Parser.LooseObjectSplits | lib/parser.py:22 | a loose object `<type> <size>\0<body>` splits into its header and its body |
| Parser.EntryMatch | lib/parser.py:26 | a match of the entry pattern has a positive length within the text |
| Parser.EntryMatchValid | lib/parser.py:26 | every match has a digit mode, a name without NUL and a 20-byte hash |
| Parser.EntryMatchAt | lib/parser.py:26 | an entry laid out at the start of the text is matched exactly, with its full length |
| Parser.MatchesIn | lib/parser.py:26-28 | `findall` yields only entries with a digit mode, a NUL-free name and a 20-byte hash |
| Parser.MatchesInEncoded | lib/parser.py:26-28 | `findall` over entries written one after another finds exactly those entries, in order |
| Parser.Decoded | lib/parser.py:29-33 | the yielded entry has a digit mode and a 40-hex-digit hash that unhexlifies back to the 20 raw bytes |
| Parser.DecodedAll | lib/parser.py:28-34 | the loop yields one decoded entry per match, in order |
| Parser.ParseTree | lib/parser.py:21-34 | succeeds only when the header starts with "tree "; data without a NUL raises; every entry yielded is well formed |
| Parser.ParseLooseTree | lib/parser.py:21-28 | a loose tree is decoded by scanning its body for entries |
| Parser.ParseTreeRoundTrip | lib/parser.py:21-34 | a tree written from entries decodes to exactly those entries, in order |
| Parser.ParseCommit | lib/parser.py:37-53 | succeeds only when the header starts with "commit "; data without a NUL raises |
| Parser.HeaderAbsent | lib/parser.py:42-51 | a key no header line sets stays unset, so `tree`, `parent`, `author` and `committer` keep their default None |
| Parser.HeaderLastWins | lib/parser.py:49-51 | when several lines set a key, the value of the last one is kept |
| Parser.HeaderLine | lib/parser.py:50-51 | one header line split at its first space into the ASCII key and the stripped value; a line without a space or with a non-ASCII key raises; `Parser.HeaderLineOf` states what it gives for a line git writes |
| Parser.Headers | lib/parser.py:49-51 | the header loop: the lines entered into one dictionary in order, the first bad line raising; `Parser.HeaderAbsent`, `Parser.HeaderLastWins` and `Parser.HeadersOfBlock` state what it holds |
| Parser.HeaderLineOf | lib/parser.py:50-51 | a line `key value` is split at its first space into the ASCII key and the stripped value |
| Parser.HeadersOfBlock | lib/parser.py:49-51 | the header loop over a block of lines gives each key the value of its last line |
| Parser.BlankLineAfter | lib/parser.py:48 | the first blank line of a commit body is the one that ends the header block |
| Parser.ParseCommitOf | lib/parser.py:37-53 | the commit is the header dictionary plus the stripped text after the first blank line |
| Parser.ParseCommitOfBody | lib/parser.py:37-53 | the same, for a body made of a header block, a blank line and a message |
| Parser.ParseCommitRoundTrip | lib/parser.py:37-53 | a commit written from header pairs and a message decodes to the last value of each key and the stripped message |
| Parser.ParseBlob | lib/parser.py:56-61 | succeeds only when the header starts with "blob "; the payload is everything after the first NUL, unchanged; no NUL raises |
| Parser.ParseBlobRoundTrip | lib/parser.py:56-61 | a blob decodes to exactly the bytes it was made from |
| Bytes.UnhexHex | lib/parser.py:33 | hexlify followed by unhexlify gives back the raw bytes |
| Bytes.HexUnhex | lib/parser.py:33 | every even-length lower-case hex string is the hexlify of exactly one byte string |
| Bytes.Strip | lib/parser.py:51-52 | `strip()` leaves no whitespace at either end and never lengthens |
| Bytes.StripTrimmed | lib/parser.py:51-52 | a value with no whitespace at either end is its own `strip()` |
| IndexFormat.FlagsRoundTrip | lib/parser.py:127-138 | bit 15 is assume-valid, bit 14 extended, bits 13 and 12 the stage, the low 12 bits the name length |
| IndexFormat.FlagsPartition | lib/parser.py:127-138 | every 16-bit flags word is exactly its four flag bits and its name length |
| IndexFormat.PadLength | lib/parser.py:170 | the padding is 1 to 8 bytes and ends the entry on a multiple of 8 |
| IndexFormat.MakeEntry | lib/parser.py:94-138 | the entry keeps its number, stat words, flags and extended flags; its hash is the hex of the 20 bytes read and unhexlifies back to them |
| IndexFormat.DecodeHeader | lib/parser.py:78-89 | succeeds exactly when the file starts with "DIRC" and a big-endian version 2 or 3; then gives that version and the entry count |
| IndexFormat.NameAndPadding | lib/parser.py:156-172 | the name is the next `namelen` bytes (fewer at the end of the file); the read succeeds exactly when the padding after it is non-empty and all NUL, and then ends after the padding; otherwise it raises `BadPadding` |
| IndexFormat.NulPaddingRequired | lib/parser.py:156-172 | a non-NUL byte inside the padding after an entry's name makes the name-and-padding read raise `BadPadding` |
| IndexFormat.NonNulPaddingFails | lib/parser.py:140-172 | a non-NUL byte anywhere in an entry's padding makes that entry raise `BadPadding` |
| IndexFormat.EntryTail | lib/parser.py:140-172 | the extended-flags word is read exactly when the entry is extended and the index is version 3 |
| IndexFormat.DecodeEntry | lib/parser.py:93-174 | a short read raises; a decoded entry carries its number, a name length below 0xFFF and extended flags exactly when they were read |
| IndexFormat.Step | lib/parser.py:93-174 | each iteration yields one entry or ends the generator; once ended, nothing changes |
| IndexFormat.Walk | lib/parser.py:93-174 | after `i` iterations at most `i` entries have been yielded, exactly `i` unless the generator ended |
| IndexFormat.WalkStep | lib/parser.py:93-174 | a further iteration appends the entry read at the current position or records its error |
| IndexFormat.WalkHalts | lib/parser.py:172-174 | after an entry fails, no later iteration yields anything |
| IndexFormat.BadPaddingEndsIndex | lib/parser.py:91-174 | an entry with bad padding ends the generator: only the entries before it are yielded, and the stream reports `BadPadding` |
| IndexFormat.DecodeIndex | lib/parser.py:65-96 | an unreadable or empty file raises; the header is yielded exactly when it checks out; then at most `entries` entries, exactly that many without an error |
| IndexFormat.WalkNumbered | lib/parser.py:93-96 | the entries yielded are numbered 1, 2, ... |
| IndexFormat.IndexEntriesNumbered | lib/parser.py:91-96 | after the header, the entries are numbered 1, 2, ... |
| IndexFormat.Cursor.constructor | lib/parser.py:66-67 | the mapped file is read from position 0 |
| IndexFormat.Cursor.Read | lib/parser.py:73 | `f.read(n)` returns the next `n` bytes, fewer at the end of the file, and advances past them |
| IndexFormat.Cursor.ReadU32 | lib/parser.py:69-74 | `read('I')` returns the big-endian word at the position and advances 4, or raises on a short read |
| IndexFormat.Cursor.ReadU16 | lib/parser.py:69-74 | `read('H')` returns the big-endian half-word and advances 2, or raises on a short read |
| IndexFormat.ReadStat | lib/parser.py:98-124 | the ten `read('I')` calls give the ten stat words at the position |
| IndexFormat.ReadNameAndPadding | lib/parser.py:156-172 | reading the name and padding agrees with the layout function and leaves the cursor after the padding |
| IndexFormat.ReadEntryTail | lib/parser.py:140-172 | reading the extended flags, the name and the padding agrees with the layout function |
| IndexFormat.ReadEntry | lib/parser.py:94-174 | one iteration of the loop gives the entry, or the error, that the layout defines at the position |
| IndexFormat.ReadEntries | lib/parser.py:93-174 | the counted loop yields exactly the entries of the walk and stops at its first error |
| IndexFormat.ParseIndex | lib/parser.py:65-176 | running the generator to its end gives exactly the decoded index |
| IndexEncoding.EncodeRecord | lib/parser.py:140-172 | an entry as git writes it is longer than 62 bytes and a multiple of 8 |
| IndexEncoding.StatPlaced | lib/parser.py:98-124 | written stat words read back as written |
| IndexEncoding.HeadPlaced | lib/parser.py:98-154 | written stat words, hash, flags and extended flags read back |
| IndexEncoding.ExtraPlaced | lib/parser.py:143-154 | the extended-flags word reads back exactly when the entry is extended and the index is version 3 |
| IndexEncoding.NamePlaced | lib/parser.py:156-172 | a written name and its NUL padding read back, and the read ends after the padding |
| IndexEncoding.TailPlaced | lib/parser.py:140-172 | a written extended-flags word, name and padding read back |
| IndexEncoding.RecordPlaced | lib/parser.py:93-174 | a written entry decodes to the expected entry and the read ends just after its padding |
| IndexEncoding.HeaderRoundTrip | lib/parser.py:78-89 | a written header reads back with its version and count, and the entries start at byte 12 |
| IndexEncoding.EntriesRoundTrip | lib/parser.py:93-174 | the loop over written entries yields each one, numbered from 1, without an error |
| IndexEncoding.IndexRoundTrip | lib/parser.py:65-176 | `parse_index` reads a written index back: its header, then every entry with its fields, numbered from 1, and no error |
| Net.GetFrom | lib/net.py:36-45 | the retry loop from attempt `k`: the body of the first attempt that does not raise `HTTPError`, the exception of one that raises something else, None once the attempts run out; the definition `Net.Host.Get` is proved equal to, characterised by `Net.GetNothing` and `Net.GetFirstAnswer` |
| Net.AttemptsFrom | lib/net.py:36-45 | `get` makes at least one attempt and never more than `retry` |
| Net.GetNothing | lib/net.py:36-45 | `get` returns None exactly when every attempt raised `HTTPError` |
| Net.GetFirstAnswer | lib/net.py:36-45 | `get` returns the body of, or raises the error of, the first attempt not raising `HTTPError`, and stops there |
| Net.LoadFile | lib/net.py:28-33 | the contents of an existing file, None for a missing one |
| Net.Saved | lib/net.py:20-25 | the file holds the data afterwards, no other file changes, and no directory disappears |
| Net.Downloaded | lib/net.py:48-53 | the disk changes only when the body is non-empty, and then holds that body at the local path |
| Net.NetPath | lib/net.py:59 | the URL ends with the path without its leading slashes |
| Net.NetPathSeam | lib/net.py:59 | extra slashes at the end of the base or the start of the path do not change the URL |
| Net.Listing | lib/net.py:68-82 | what `get` raised propagates; true exactly when the body is non-empty and its text contains a keyword |
| Net.IndexOfIsListing | lib/net.py:69-81 | a page saying "Index of /" is a directory listing |
| Net.DecodeAll | lib/net.py:101-102 | each link is decoded as UTF-8 with replacement |
| Net.CrawlFrom | lib/net.py:93-109 | `recursive(path)`: a path ending in '/' is a directory to create, fetch and crawl link by link; any other path is submitted as a download; past the depth bound it raises `RecursionLimit`; the definition `Net.Host.Visit` is proved equal to |
| Net.CrawlDir | lib/net.py:96-105 | the directory branch: create the directory, fetch its page, and crawl its links only when the page is non-empty; what `get` raises ends the crawl |
| Net.CrawlLinks | lib/net.py:101-105 | the loop over a page's links: "../" and absolute links are skipped, every other link is crawled as `path + link`, and an exception ends the loop; the definition `Net.Host.VisitLinks` is proved equal to |
| Net.SkippedLinks | lib/net.py:101-105 | links that are "../" or absolute add nothing to the crawl |
| Net.CrawlTasks | lib/net.py:93-109 | every download the crawl submits is for a non-directory path under the start path, kept at its local path and fetched from its URL |
| Net.CrawlFileTasks | lib/net.py:106-108 | a file path is submitted as its own download |
| Net.CrawlDirTasks | lib/net.py:96-105 | a directory submits only downloads below it |
| Net.CrawlLinksTasks | lib/net.py:101-105 | following the links of a directory submits only downloads below it |
| Net.DownloadedAllGrows | lib/net.py:106-112 | running the submitted downloads only adds files and directories |
| Net.Host.Get | lib/net.py:36-45 | returns what the attempts give, logs one request per attempt and leaves the disk alone |
| Net.Host.SaveFile | lib/net.py:20-25 | the disk becomes the saved disk; no request is made |
| Net.Host.Download | lib/net.py:48-53 | returns what `get` gave, writes only a non-empty body, logs the attempts |
| Net.Host.LoadOrGet | lib/net.py:56-65 | without `cover` an existing local path is read with no request; otherwise it downloads and returns a non-empty body, else the local file or None, and propagates what `get` raised |
| Net.Host.IsDirList | lib/net.py:68-82 | gives the keyword test of what `get` returned and leaves the disk alone |
| Net.Host.Visit | lib/net.py:93-109 | `recursive(path)` submits the downloads of the crawl, creates its directories and writes no file |
| Net.Host.VisitLinks | lib/net.py:101-105 | the loop over a listing's links crawls each followed link in turn |
| Net.Host.RunTasks | lib/net.py:108-112 | the submitted downloads run one after another |
| Net.Host.DirlistSpider | lib/net.py:85-112 | crawls from "/" with both bases' trailing slashes stripped, then runs every submitted download; the crawl's exception is reported |
| Git.ObjectPath | lib/git.py:115 | the object path starts with `objects/` and is 9 characters longer than the hash (the prefix and the '/' after the first two characters) |
| Git.ObjectPathInjective | lib/git.py:115 | different hashes have different object paths |
| Git.LoadObject | lib/git.py:115 | a hash with no stored object loads as None |
| Git.NonEmpty | lib/git.py:125-128 | a commit's `tree` or `parent` is added exactly when it is set and non-empty |
| Git.TreePointers | lib/git.py:118-121 | a tree that decodes adds the hash of every entry and nothing else; one that raises adds nothing |
| Git.CommitPointers | lib/git.py:122-128 | a commit adds its non-empty `tree` and `parent`; one that raises adds nothing |
| Git.Pointers | lib/git.py:118-133 | what decoded data adds to the pool: a tree's entry hashes, a commit's non-empty `tree` and `parent`, nothing for anything else or for a decoder that raises; stated case by case by the dispatch lemmas below |
| Git.TreeDispatch | lib/git.py:118-121 | data starting with "tree" is decoded as a tree |
| Git.CommitDispatch | lib/git.py:122-128 | data starting with "commit" is decoded as a commit |
| Git.OtherDispatch | lib/git.py:129-133 | data that is neither a tree nor a commit adds nothing |
| Git.TreeAddsEntries | lib/git.py:118-121 | a written tree adds exactly the hashes of its entries |
| Git.CommitAddsTreeAndParent | lib/git.py:122-128 | a written commit adds its non-empty `tree` and its last `parent` |
| Git.BlobAddsNothing | lib/git.py:129-131 | a blob adds nothing |
| Git.Expand | lib/git.py:115-136 | only an exception of the load escapes; a missing object adds nothing and the walk goes on |
| Git.ObjectGraph | lib/git.py:115-136 | a hash with no stored object has no successors |
| Git.LeastClosedUnique | lib/git.py:111-112 | the reachable set does not depend on the order `pop()` hands out hashes |
| Git.DistinctPaths | lib/git.py:113-115 | hashes loaded once each load each object path once |
| Git.FrontierStep | lib/git.py:112-136 | using a pending hash keeps the walk's invariant: seeds and successors are used or pending, nothing unreachable is |
| Git.FrontierSkip | lib/git.py:112-114 | popping an already used hash keeps the invariant |
| Git.HashesWalk | lib/git.py:108-136 | loads each hash at most once; without an exception `usedhash` is exactly the set reachable from the seeds; an escaping load exception ends the walk |
| Git.Captured | lib/git.py:60-68 | a load that raised or found nothing adds no hash |
| Git.CapturedFrom | lib/git.py:60-93 | the union of `find_sha1` over the hash-capturing loads of a list; characterised by `Git.CapturedFromExactly` |
| Git.CapturedFromExactly | lib/git.py:60-93 | the collected hashes are exactly those found in the hash-capturing loads |
| Git.HeadPath | lib/git.py:97 | `split(':')[1]` raises exactly when the text has no ':'; otherwise the path has no ':' |
| Git.HeadPathOfRef | lib/git.py:95-99 | for a HEAD `ref: <path>` the path is the stripped text after the colon |
| Git.HeadPathOfText | lib/git.py:95-99 | the same, for any HEAD whose text has one colon |
| Git.Seeds | lib/git.py:60-99 | the hash set `fake_clone` hands to `hashes_walk`, or the error raised by a HEAD load that raised or a HEAD with no ':'; the definition `Git.CollectSeeds` is proved equal to, characterised by `Git.SeedsExactly` |
| Git.SeedsExactly | lib/git.py:60-99 | a seed comes from a hash-capturing reference file or, when HEAD has content, from the ref HEAD names or its log |
| Git.CollectSeeds | lib/git.py:56-101 | the loads in submission order, then HEAD's ref and its log, give exactly the seed set |
| Git.Restore | lib/git.py:147-156 | a restored blob is written at `join(dirname(localgit), name)`; a load that raised or found nothing writes nothing |
| Git.RestoreBlob | lib/git.py:147-154 | a stored blob is written out byte for byte at the entry's name |
| Git.RestoredAll | lib/git.py:158-159 | the disk after restoring the entries one after another, a failed restore changing nothing; the definition `Git.RestoreEach` is proved equal to, characterised by `Git.RestoredStep`, `Git.RestoredLastWins` and `Git.RestoredElsewhere` |
| Git.RestoredStep | lib/git.py:158-159 | restoring one more entry changes at most the file it writes |
| Git.RestoredLastWins | lib/git.py:158-159 | the entry restored last at a path decides its contents |
| Git.RestoredElsewhere | lib/git.py:147-159 | a path no entry restores keeps its contents, even when other restores fail |
| Git.IndexExtract | lib/git.py:139-164 | an index that does not decode writes nothing; otherwise every entry yielded is restored in turn and a break in the index is reported; the object files the loads save under `objects/` are not part of `after` |
| Git.RestoreEach | lib/git.py:158-164 | the loop restores each entry in turn |
| Git.FakeClone | lib/git.py:55-105 | a HEAD that raises or has no ':' stops before the walk; otherwise the walk visits the reachable set once each and the index is checked out, unless an object load raised; the object files the loads save under `objects/` are not part of `after` |
| Scan.AfterScheme | lib/scan.py:14 | removing the scheme never lengthens the URL |
| Scan.AfterSchemeOf | lib/scan.py:14 | a scheme of letters and its ':' are removed and nothing more |
| Scan.NetlocLength | lib/scan.py:14 | the network location runs up to the first '/', '?' or '#' |
| Scan.Netloc | lib/scan.py:14 | the network location holds no '/' |
| Scan.NetlocOfUrl | lib/scan.py:14 | for `scheme://host<path>` the network location is the host, port included |
| Scan.DistName | lib/scan.py:14 | the output directory name is the network location with every ':' turned into '_' |
| Scan.EndpointIgnoresSlashes | lib/scan.py:13 | trailing slashes on the URL do not change the endpoint |
| Scan.Until | lib/scan.py:55-65 | a run of steps never gives False; it gives True exactly when none of them raises |
| Scan.Listed | lib/scan.py:52 | `isdirlist(netgit)` in plan B: its answer, or an exception that escapes the plan |
| Scan.PlanARun | lib/scan.py:39-48 | plan A's outcome and effects; the definition `Scan.GitScanner.PlanA` is proved equal to |
| Scan.InitIfMissingRun | lib/scan.py:56-57 | `init(cwd)` unless `.git` exists, as plans B and C start; the definition `Scan.GitScanner.InitIfMissing` is proved equal to |
| Scan.PlanBRun | lib/scan.py:50-65 | plan B's outcome and effects; the definition `Scan.GitScanner.PlanB` is proved equal to |
| Scan.PlanCRun | lib/scan.py:67-74 | plan C's outcome and effects; the definition `Scan.GitScanner.PlanC` is proved equal to |
| Scan.ScanPlans | lib/scan.py:21-37 | the plans `scan` runs, the last one's outcome and the effects; the definition `Scan.GitScanner.Scan` is proved equal to, characterised by `Scan.ScanOrder` |
| Scan.PlanAKeepsValid | lib/scan.py:41-45 | an existing `.git` that validates is kept with no removal and no clone |
| Scan.PlanARemovesInvalid | lib/scan.py:46-48 | an invalid `.git` is removed, then cloned, and the clone's answer is returned |
| Scan.PlanBNeedsListing | lib/scan.py:52-54 | without a directory listing plan B gives False having done nothing else |
| Scan.PlanBTrueUnlessRaised | lib/scan.py:55-65 | with a listing, plan B gives True exactly when no step raises, whatever validation answers |
| Scan.PlanCNeverFalse | lib/scan.py:67-74 | plan C never gives False |
| Scan.ScanOrder | lib/scan.py:21-37 | the plans run in order A, B, C, each only after the one before gave False; reaching plan C means success unless C raises |
| Scan.GitScanner.constructor | lib/scan.py:12-19 | the endpoint is the URL without trailing slashes, the working directory is named after the network location, and the `.git` pair is derived from both |
| Scan.GitScanner.PlanA | lib/scan.py:39-48 | gives the outcome and effects of plan A |
| Scan.GitScanner.InitIfMissing | lib/scan.py:69-70 | runs `init` only when `.git` does not exist |
| Scan.GitScanner.PlanB | lib/scan.py:50-65 | gives the outcome and effects of plan B |
| Scan.GitScanner.PlanC | lib/scan.py:67-74 | gives the outcome and effects of plan C |
| Scan.GitScanner.Scan | lib/scan.py:21-37 | runs the plans in the order of the scan and reports the last one's outcome |

## Left out

- Parser.FindSha1: `\d` is modelled as the ASCII digits. Python's str pattern also matches other Unicode decimal digits, so a run containing one is not reported.
- Parser.FindSha1: finding a hash is proved only for a hash that stands on its own (at the start of the text or after a non-hex character). Matches inside longer hex runs are computed but have no lemma of their own.
- Bytes.Strip: the contract says that no whitespace is left at either end, not that only whitespace was removed. The round-trip lemmas use the already-stripped case (`Bytes.StripTrimmed`).
- The long-name branch of `parse_index` (lib/parser.py:159-168) is the error `NameScanDiverges`, not a NUL-terminated read. Its loop compares bytes with a str, never stops at a NUL and spins at the end of the file.
- The `pretty=True` fields of `parse_index` are not modelled: the floating-point `ctime`/`mtime` and the `'%06o'` mode string. Entries keep the integer stat words.
- zlib inflation is an abstract partial function (`Repo.inflate`): it is a foreign library call.
- The HTTP layer (`urllib`, the timeout, the random User-Agent read from a file) is a fixed function from a URL and an attempt number to the attempt's outcome.
- The thread pools of `fake_clone`, `index_extract` and `dirlist_spider` run sequentially, in submission order, and the lock around the shared hash set is dropped. The set union does not depend on the order. Two index entries with the same name race in the source; the model writes them in index order.
- `time.sleep(0.2)` in the crawler is left out.
- Python's recursion limit in the crawler is a depth bound. Reaching it raises `RecursionLimit`.
- `load_file` on a path that is a directory raises in the source. The model's disk keeps directories apart from files and reads None there.
- `os.makedirs` records only the directory it is asked for, not the ancestors it also creates.
- Write failures in `save_file` (permissions, a full disk) are not modelled. In `_restore_blob` they would be caught like the other failures.
- The reference-file loads of `fake_clone` are the answers of `Repo.files`. The files those loads write to disk are not tracked: `FakeClone` takes the disk as they left it.
- The object store is a finite map from hash to stored bytes. A hash outside it has no object anywhere.
- Git.FakeClone: the object loads of `hashes_walk` (lib/git.py:115) and `_restore_blob` (lib/git.py:151) go through `load_or_get`. In the source they read an existing local copy first and write every object they download under `objects/`. The model answers each object load from `Repo.objects` and does not track those writes. So `after` leaves out the object files: on a raised load it is the disk as the reference loads left it, and otherwise the restored working-tree files.
- Git.IndexExtract: for the same reason, `after` holds the restored working-tree files but not the object files that `_restore_blob`'s loads save under `objects/`.
- The crawler's link pattern (lib/net.py:86,101) is not modelled. That pattern picks, case-insensitively, the `href` target of the first link in each table cell. `Net.LinkScan` is an arbitrary function from a page to its link targets. So the properties of the crawler hold for any link scanner, not for that pattern in particular.
- lib/scan.py imports `get_cache`, `update_files`, `valid_repo` and `dirlist_download`, which are not defined in lib/git.py or lib/net.py. It also reads `Config.dist`, which lib/config.py does not define. Those four calls are oracle answers in `Scan.World`, and the output root is a parameter.
- `clone`, `init` and repository validation run the `git` program. They are oracle answers, and `check_git` is not modelled.
- `urlparse` is modelled only as far as the network location goes: the scheme, the `//`, and the first '/', '?' or '#'. Its removal of control characters, its lower-casing of the scheme and its errors on malformed IPv6 brackets are not modelled.
- Logging, the `RunningBar` spinner, the command-line entry point and the configuration constants are not part of this model.
