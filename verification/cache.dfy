/** `getHosts`: serve the cache file while it is fresh and readable, otherwise
    download, parse and format a new host list and try to store it.

    Every call the function makes into the outside world is replaced by the
    outcome it would have had, gathered in a `World`; the model returns the text
    or error together with the trace of attempted actions. Times and durations
    are integer nanoseconds. */
module Cache {
  import opened Wrappers
  import opened Hosts

  /** Outcome of `os.Stat` on the cache file. */
  datatype StatResult = StatFailed | Stat(modTime: int)

  /** Outcome of `ioutil.ReadFile` on the cache file. */
  datatype ReadResult = ReadFailed | Read(content: string)

  /** What the outside world answers, should `getHosts` ask. */
  datatype World = World(
    stat: StatResult,                           // the cache file's status
    now: int,                                   // `time.Now()`
    read: ReadResult,                           // reading the cache file
    download: Result<Payload, Error>,           // `downloadHosts`
    parse: Payload -> Result<Response, Error>,  // `parse` (JSON decoding)
    mkdirOk: bool,                              // `os.MkdirAll` of the cache directory
    writeOk: bool)                              // `ioutil.WriteFile` of the cache file

  /** One attempted side effect or query, with its outcome where it has one that
      the world does not already record. */
  datatype Action =
    | StatCache
    | ReadCache
    | Download
    | MakeCacheDir(ok: bool)
    | WriteCache(content: string, ok: bool)

  /** What a call returns, and what it tried to do on the way. */
  datatype Outcome = Outcome(result: Result<string, Error>, actions: seq<Action>)

  /** `time.Time.After`. */
  predicate After(t: int, u: int) {
    t > u
  }

  /** The cache file is still valid: `now` is not after `modTime + duration`, so
      the expiry instant itself still counts as fresh. */
  predicate Fresh(modTime: int, duration: int, now: int) {
    !After(now, modTime + duration)
  }

  /** The file was found and is fresh, so `getHosts` reads it. */
  predicate ReadsCache(cacheDuration: int, w: World) {
    w.stat.Stat? && Fresh(w.stat.modTime, cacheDuration, w.now)
  }

  /** The three conditions for returning the cached text. */
  predicate CacheHit(cacheDuration: int, w: World) {
    ReadsCache(cacheDuration, w) && w.read.Read?
  }

  /** Some write of the cache file was attempted. */
  predicate Writes(o: Outcome) {
    exists a :: a in o.actions && a.WriteCache?
  }

  /** The cache directory was (attempted to be) created. */
  predicate MakesDir(o: Outcome) {
    exists a :: a in o.actions && a.MakeCacheDir?
  }

  /** The step of `getHosts` at which an action happens. */
  function Step(a: Action): nat {
    match a
    case StatCache => 0
    case ReadCache => 1
    case Download => 2
    case MakeCacheDir(_) => 3
    case WriteCache(_, _) => 4
  }

  /** Each action comes at a later step than the ones before it. */
  predicate InOrder(actions: seq<Action>) {
    forall i, j :: 0 <= i < j < |actions| ==> Step(actions[i]) < Step(actions[j])
  }

  /** Appending an action of a later step keeps a trace in order. */
  lemma InOrderSnoc(actions: seq<Action>, a: Action)
    requires InOrder(actions)
    requires |actions| > 0 ==> Step(actions[|actions| - 1]) < Step(a)
    ensures InOrder(actions + [a])
  {
    var t := actions + [a];
    forall i, j | 0 <= i < j < |t| ensures Step(t[i]) < Step(t[j]) {
      if j == |actions| && i < |actions| - 1 {
        assert Step(actions[i]) < Step(actions[|actions| - 1]);
      }
    }
  }

  /** The refresh path of `getHosts`: download and parse, and on success try to
      create the cache directory and then write the new text. */
  function Refresh(w: World): (o: Outcome)
    ensures o.result == DownloadParseHosts(w.download, w.parse)
    ensures |o.actions| > 0 && o.actions[0] == Download
    ensures StatCache !in o.actions && ReadCache !in o.actions
    ensures MakesDir(o) <==> o.result.Success?
    ensures Writes(o) <==> MakesDir(o) && w.mkdirOk
    ensures forall a :: a in o.actions && a.WriteCache? ==>
              o.result == Success(a.content) && a.ok == w.writeOk
    ensures forall a :: a in o.actions && a.MakeCacheDir? ==> a.ok == w.mkdirOk
  {
    var fetched := DownloadParseHosts(w.download, w.parse);
    match fetched
    case Failure(_) => Outcome(fetched, [Download])
    case Success(text) =>
      if !w.mkdirOk then
        var o := Outcome(fetched, [Download, MakeCacheDir(false)]);
        assert o.actions[1] == MakeCacheDir(false);
        o
      else
        var o := Outcome(fetched, [Download, MakeCacheDir(true), WriteCache(text, w.writeOk)]);
        assert o.actions[1] == MakeCacheDir(true);
        assert o.actions[2] == WriteCache(text, w.writeOk);
        o
  }

  /** `getHosts`: stat the cache file; when it exists and is fresh, read it and
      serve its text if the read succeeds; otherwise take the refresh path. */
  function GetHosts(cacheDuration: int, w: World): (o: Outcome)
    // the cached text is served verbatim, and nothing downloaded, exactly on a hit
    ensures CacheHit(cacheDuration, w) <==> Download !in o.actions
    ensures CacheHit(cacheDuration, w) ==> o.result == Success(w.read.content)
    // a missing, stale or unreadable file falls through to the pipeline, whose
    // verdict is the call's verdict: a stat or read failure is never the error
    ensures !CacheHit(cacheDuration, w) ==> o.result == DownloadParseHosts(w.download, w.parse)
    // the file is stat-ed first, and read only when it exists and is fresh
    ensures |o.actions| > 0 && o.actions[0] == StatCache
    ensures ReadCache in o.actions <==> ReadsCache(cacheDuration, w)
    // persistence is attempted only after a successful download and parse
    ensures o.result.Failure? ==> !MakesDir(o) && !Writes(o)
    ensures MakesDir(o) <==> !CacheHit(cacheDuration, w) && o.result.Success?
    // the file is written only once the directory exists, and only with the returned text
    ensures Writes(o) <==> MakesDir(o) && w.mkdirOk
    ensures forall a :: a in o.actions && a.WriteCache? ==>
              o.result == Success(a.content) && a.ok == w.writeOk
    ensures forall a :: a in o.actions && a.MakeCacheDir? ==> a.ok == w.mkdirOk
  {
    var probe := if ReadsCache(cacheDuration, w) then [StatCache, ReadCache] else [StatCache];
    if CacheHit(cacheDuration, w) then
      Outcome(Success(w.read.content), probe)
    else
      var r := Refresh(w);
      var o := Outcome(r.result, probe + r.actions);
      assert o.actions[|probe|] == Download;
      o
  }

  /** Two traces in order, the second starting at a later step than the first
      ends, make one trace in order. */
  lemma InOrderAppend(a: seq<Action>, b: seq<Action>)
    requires InOrder(a) && InOrder(b)
    requires |a| > 0 && |b| > 0 ==> Step(a[|a| - 1]) < Step(b[0])
    ensures InOrder(a + b)
  {
    var t := a + b;
    forall i, j | 0 <= i < j < |t| ensures Step(t[i]) < Step(t[j]) {
      if i < |a| <= j {
        assert Step(a[i]) <= Step(a[|a| - 1]) by {
          if i < |a| - 1 { assert Step(a[i]) < Step(a[|a| - 1]); }
        }
        assert Step(b[0]) <= Step(b[j - |a|]) by {
          if 0 < j - |a| { assert Step(b[0]) < Step(b[j - |a|]); }
        }
      }
    }
  }

  /** The refresh path downloads, then creates the directory, then writes. */
  lemma RefreshInOrder(w: World)
    ensures InOrder(Refresh(w).actions)
  {
    var fetched := DownloadParseHosts(w.download, w.parse);
    var text := if fetched.Success? then fetched.value else "";
    assert InOrder([Download]);
    InOrderSnoc([Download], MakeCacheDir(w.mkdirOk));
    InOrderSnoc([Download, MakeCacheDir(true)], WriteCache(text, w.writeOk));
    assert [Download, MakeCacheDir(true)] + [WriteCache(text, w.writeOk)]
        == [Download, MakeCacheDir(true), WriteCache(text, w.writeOk)];
  }

  /** Each action is attempted at most once, in the order stat, read,
      download, mkdir, write. */
  lemma GetHostsInOrder(cacheDuration: int, w: World)
    ensures InOrder(GetHosts(cacheDuration, w).actions)
  {
    var probe := if ReadsCache(cacheDuration, w) then [StatCache, ReadCache] else [StatCache];
    assert InOrder(probe) by { InOrderSnoc([StatCache], ReadCache); }
    if !CacheHit(cacheDuration, w) {
      var r := Refresh(w);
      RefreshInOrder(w);
      InOrderAppend(probe, r.actions);
    }
  }

  /** Neither the directory creation nor the write changes what is returned:
      persistence failures are only logged. */
  lemma PersistenceOutcomeIgnored(cacheDuration: int, w: World, mkdirOk: bool, writeOk: bool)
    ensures GetHosts(cacheDuration, w.(mkdirOk := mkdirOk, writeOk := writeOk)).result
            == GetHosts(cacheDuration, w).result
  {
  }

  /** A file whose expiry instant is exactly now is served from the cache; one
      nanosecond later it is refreshed. */
  lemma FreshnessBoundary(cacheDuration: int, w: World)
    requires w.stat.Stat? && w.read.Read?
    ensures w.now == w.stat.modTime + cacheDuration ==>
              GetHosts(cacheDuration, w).result == Success(w.read.content)
    ensures w.now == w.stat.modTime + cacheDuration + 1 ==>
              Download in GetHosts(cacheDuration, w).actions
  {
  }

  /** A list stored by a successful write is what the next run returns, as long
      as that run finds the file within its validity window and can read it. */
  lemma StoredListServesNextRun(cacheDuration: int, w: World, next: World, text: string)
    requires WriteCache(text, true) in GetHosts(cacheDuration, w).actions
    requires next.stat.Stat? && next.read == Read(text)
    requires next.now <= next.stat.modTime + cacheDuration
    ensures GetHosts(cacheDuration, next).result == GetHosts(cacheDuration, w).result
    ensures Download !in GetHosts(cacheDuration, next).actions
  {
  }
}
