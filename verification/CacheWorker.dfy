/**
 The service worker's caches under every interleaving of installs, activations and fetch
 handlers, with an arbitrary network and cache operations that may reject.

 Each handler is a task that advances one await at a time. Both current caches start absent;
 caches left by earlier versions hold anything until an activation drops them one by one.
 */
module CacheWorker {
  import opened Collections

  type Url = string

  /** The facts about a response the worker looks at, and its body. */
  datatype Response = Response(ok: bool, basic: bool, html: bool, body: string)

  const SHELL_URL: Url := "/index.html"

  predicate IsImmutable(url: Url) {
    |url| >= 8 && url[..8] == "/assets/"
  }

  predicate IsCacheableResponse(r: Response) {
    r.ok && r.basic
  }

  predicate IsCacheableAsset(r: Response) {
    IsCacheableResponse(r) && !r.html
  }

  // ----- the cache storage -----

  datatype Name = Shell | Assets | Old(version: nat)

  datatype Cache = Cache(name: Name, entries: map<Url, Response>)

  /** The caches in order of creation. */
  type Storage = seq<Cache>

  /** `caches.match`: the first cache that holds the URL answers. */
  function Find(s: Storage, url: Url): Option<Response> {
    if s == [] then None
    else if url in s[0].entries then Some(s[0].entries[url])
    else Find(s[1..], url)
  }

  /** `caches.open` creates a cache that does not exist. */
  function Open(s: Storage, name: Name): Storage {
    if s == [] then [Cache(name, map[])]
    else if s[0].name == name then s
    else [s[0]] + Open(s[1..], name)
  }

  /** `caches.open`, then `put`. */
  function Put(s: Storage, name: Name, url: Url, r: Response): Storage {
    if s == [] then [Cache(name, map[url := r])]
    else if s[0].name == name then [Cache(name, s[0].entries[url := r])] + s[1..]
    else [s[0]] + Put(s[1..], name, url, r)
  }

  /** `caches.open`, then `delete` of one entry. */
  function Evict(s: Storage, name: Name, url: Url): Storage {
    if s == [] then [Cache(name, map[])]
    else if s[0].name == name then [Cache(name, s[0].entries - {url})] + s[1..]
    else [s[0]] + Evict(s[1..], name, url)
  }

  /** `caches.delete`. */
  function Drop(s: Storage, name: Name): Storage {
    if s == [] then []
    else if s[0].name == name then s[1..]
    else [s[0]] + Drop(s[1..], name)
  }

  /** What the cache of a name holds. */
  function Contents(s: Storage, name: Name): map<Url, Response> {
    if s == [] then map[]
    else if s[0].name == name then s[0].entries
    else Contents(s[1..], name)
  }

  // ----- the handlers -----

  /** Where a task stands: at its next network reply or cache operation. */
  datatype Task =
    | NavigationFetch(url: Url)
    | NavigationStore(url: Url, response: Response)
    | NavigationFallback(url: Url)
    | NavigationSecond(url: Url)
    | AssetMatch(url: Url)
    | AssetDelete(url: Url)
    | AssetFetch(url: Url)
    | AssetStore(url: Url, response: Response)
    | OtherFetch(url: Url)
    | OtherStore(url: Url, response: Response)
    | OtherMatch(url: Url)
    | InstallFetch(urls: seq<Url>)
    | InstallStore(urls: seq<Url>, response: Response)
    | InstallOpen(urls: seq<Url>)
    | PrecacheFetch(url: Url)
    | PrecacheStore(url: Url, response: Response)
    | Activate
    | DropCache(name: Name)

  /** An answer to a fetch event, by the handler `task`. */
  datatype Reply = Reply(task: nat, url: Url, navigation: bool, cached: bool, response: Response)

  datatype Worker = Worker(storage: Storage, tasks: map<nat, Task>, nextTask: nat, replies: seq<Reply>)

  /**
   `Network` settles a pending request, `Advance` completes a pending cache operation, and
   `Reject` makes one reject, before or after the cache it needs was opened.
   */
  datatype Event =
    | Fetch(url: Url, navigation: bool)
    | Install(urls: seq<Url>)
    | Activation
    | Network(task: nat, response: Option<Response>)
    | Advance(task: nat)
    | Reject(task: nat, created: bool)

  function Spawn(w: Worker, t: Task): Worker {
    w.(tasks := w.tasks[w.nextTask := t], nextTask := w.nextTask + 1)
  }

  function SpawnAll(w: Worker, ts: seq<Task>): Worker
    decreases |ts|
  {
    if ts == [] then w else SpawnAll(Spawn(w, ts[0]), ts[1..])
  }

  function Precaching(urls: seq<Url>): seq<Task> {
    if urls == [] then [] else [PrecacheFetch(urls[0])] + Precaching(urls[1..])
  }

  /** One deletion for each cache of an earlier version. */
  function Dropping(s: Storage): seq<Task> {
    if s == [] then [] else (if s[0].name.Old? then [DropCache(s[0].name)] else []) + Dropping(s[1..])
  }

  function Answer(w: Worker, id: nat, url: Url, navigation: bool, cached: bool, r: Response): Worker {
    w.(tasks := w.tasks - {id}, replies := w.replies + [Reply(id, url, navigation, cached, r)])
  }

  function Become(w: Worker, id: nat, t: Task): Worker {
    w.(tasks := w.tasks[id := t])
  }

  function End(w: Worker, id: nat): Worker {
    w.(tasks := w.tasks - {id})
  }

  function Keep(w: Worker, s: Storage): Worker {
    w.(storage := s)
  }

  /** A fetch settles: with a response, or by throwing. */
  function OnNetwork(w: Worker, id: nat, response: Option<Response>): Worker
    requires id in w.tasks
  {
    match (w.tasks[id], response)
    case (NavigationFetch(url), Some(r)) =>
      if IsCacheableResponse(r) then Become(w, id, NavigationStore(url, r)) else Answer(w, id, url, true, false, r)
    case (NavigationFetch(url), None) => Become(w, id, NavigationFallback(url))
    case (AssetFetch(url), Some(r)) =>
      if IsCacheableAsset(r) then Become(w, id, AssetStore(url, r)) else Answer(w, id, url, false, false, r)
    case (AssetFetch(url), None) => End(w, id)
    case (OtherFetch(url), Some(r)) =>
      if IsCacheableAsset(r) then Become(w, id, OtherStore(url, r)) else Answer(w, id, url, false, false, r)
    case (OtherFetch(url), None) => Become(w, id, OtherMatch(url))
    case (InstallFetch(urls), Some(r)) =>
      if IsCacheableResponse(r) then Become(w, id, InstallStore(urls, r)) else End(w, id)
    case (InstallFetch(_), None) => End(w, id)
    case (PrecacheFetch(url), Some(r)) =>
      if IsCacheableAsset(r) then Become(w, id, PrecacheStore(url, r)) else End(w, id)
    case (PrecacheFetch(_), None) => End(w, id)
    case _ => w
  }

  /** A cache operation completes and its task moves on; a task without a reply ends in a 504 or a rejection. */
  function OnAdvance(w: Worker, id: nat): Worker
    requires id in w.tasks
  {
    match w.tasks[id]
    case NavigationStore(url, r) => Answer(Keep(w, Put(w.storage, Shell, SHELL_URL, r)), id, url, true, false, r)
    case NavigationFallback(url) =>
      var found := Find(w.storage, SHELL_URL);
      if found.Some? then Answer(w, id, url, true, true, found.value) else Become(w, id, NavigationSecond(url))
    case NavigationSecond(url) =>
      var found := Find(w.storage, url);
      if found.Some? then Answer(w, id, url, true, true, found.value) else End(w, id)
    case AssetMatch(url) =>
      var found := Find(w.storage, url);
      if found.None? then Become(w, id, AssetFetch(url))
      else if found.value.html then Become(w, id, AssetDelete(url))
      else Answer(w, id, url, false, true, found.value)
    case AssetDelete(url) => Become(Keep(w, Evict(w.storage, Assets, url)), id, AssetFetch(url))
    case AssetStore(url, r) => Answer(Keep(w, Put(w.storage, Assets, url, r)), id, url, false, false, r)
    case OtherStore(url, r) => Answer(Keep(w, Put(w.storage, Assets, url, r)), id, url, false, false, r)
    case OtherMatch(url) =>
      var found := Find(w.storage, url);
      if found.Some? then Answer(w, id, url, false, true, found.value) else End(w, id)
    case InstallStore(urls, r) => Become(Keep(w, Put(w.storage, Shell, SHELL_URL, r)), id, InstallOpen(urls))
    case InstallOpen(urls) => SpawnAll(End(Keep(w, Open(w.storage, Assets)), id), Precaching(urls))
    case PrecacheStore(url, r) => End(Keep(w, Put(w.storage, Assets, url, r)), id)
    case Activate => SpawnAll(End(w, id), Dropping(w.storage))
    case DropCache(name) => End(Keep(w, Drop(w.storage, name)), id)
    case _ => w
  }

  /** A rejected cache operation may have opened, and so created, its cache first. */
  function Opened(w: Worker, name: Name, created: bool): Worker {
    if created then Keep(w, Open(w.storage, name)) else w
  }

  /** A cache operation rejects: both network-first handlers catch that and fall back, the others end. */
  function OnReject(w: Worker, id: nat, created: bool): Worker
    requires id in w.tasks
  {
    match w.tasks[id]
    case NavigationStore(url, _) => Become(Opened(w, Shell, created), id, NavigationFallback(url))
    case OtherStore(url, _) => Become(Opened(w, Assets, created), id, OtherMatch(url))
    case InstallStore(_, _) => End(Opened(w, Shell, created), id)
    case AssetStore(_, _) => End(Opened(w, Assets, created), id)
    case AssetDelete(_) => End(Opened(w, Assets, created), id)
    case PrecacheStore(_, _) => End(Opened(w, Assets, created), id)
    case NavigationFetch(_) => w
    case AssetFetch(_) => w
    case OtherFetch(_) => w
    case InstallFetch(_) => w
    case PrecacheFetch(_) => w
    case _ => End(w, id)
  }

  function Start(url: Url, navigation: bool): Task {
    if navigation then NavigationFetch(url) else if IsImmutable(url) then AssetMatch(url) else OtherFetch(url)
  }

  function Step(w: Worker, e: Event): Worker {
    match e
    case Fetch(url, navigation) => Spawn(w, Start(url, navigation))
    case Install(urls) => Spawn(w, InstallFetch(urls))
    case Activation => Spawn(w, Activate)
    case Network(id, response) => if id in w.tasks then OnNetwork(w, id, response) else w
    case Advance(id) => if id in w.tasks then OnAdvance(w, id) else w
    case Reject(id, created) => if id in w.tasks then OnReject(w, id, created) else w
  }

  function Fresh(older: seq<map<Url, Response>>): Worker {
    Worker(seq(|older|, i requires 0 <= i < |older| => Cache(Old(i), older[i])), map[], 0, [])
  }

  function Run(older: seq<map<Url, Response>>, events: seq<Event>): Worker {
    if events == [] then Fresh(older) else Step(Run(older, events[..|events| - 1]), events[|events| - 1])
  }

  // ----- what the caches may hold -----

  /**
   What is demanded of the responses stored, for a URL in the asset cache and as the shell, and
   the URLs under which caches of earlier versions may hold HTML.
   */
  datatype Rules = Rules(asset: (Url, Response) -> bool, shell: Response -> bool, oldHtml: Url -> bool)

  ghost predicate AssetGood(rules: Rules, url: Url, r: Response) {
    !r.html && rules.asset(url, r)
  }

  /** A pending write is of a response the rules allow there. */
  ghost predicate TaskGood(rules: Rules, t: Task) {
    && (t.AssetStore? || t.OtherStore? || t.PrecacheStore? ==> AssetGood(rules, t.url, t.response))
    && (t.NavigationStore? || t.InstallStore? ==> rules.shell(t.response))
    && (t.OtherFetch? || t.OtherStore? || t.OtherMatch? ==> !IsImmutable(t.url))
    && (t.DropCache? ==> t.name.Old?)
  }

  /** A cached answer to a request for an immutable URL, other than a navigation. */
  predicate IsCachedAsset(r: Reply) {
    r.cached && !r.navigation && IsImmutable(r.url)
  }

  /** A cached HTML answer to a request that is no navigation. */
  predicate IsCachedHtml(r: Reply) {
    r.cached && !r.navigation && r.response.html
  }

  /** Only the shell's own URL, or an earlier cache, answers a request that is no navigation with HTML. */
  ghost predicate ReplyGood(rules: Rules, r: Reply) {
    && (IsCachedAsset(r) ==> AssetGood(rules, r.url, r.response))
    && (IsCachedHtml(r) ==> r.url == SHELL_URL || rules.oldHtml(r.url))
  }

  ghost predicate OlderGood(rules: Rules, older: map<Url, Response>) {
    forall url :: url in older ==> if older[url].html then rules.oldHtml(url) else rules.asset(url, older[url])
  }

  ghost predicate EntriesGood(rules: Rules, name: Name, entries: map<Url, Response>) {
    match name
    case Shell => forall url :: url in entries ==> url == SHELL_URL && rules.shell(entries[url])
    case Assets => forall url :: url in entries ==> AssetGood(rules, url, entries[url])
    case Old(_) => OlderGood(rules, entries)
  }

  ghost predicate StorageGood(rules: Rules, s: Storage) {
    forall c :: c in s ==> EntriesGood(rules, c.name, c.entries)
  }

  ghost predicate TasksGood(rules: Rules, w: Worker) {
    forall id :: id in w.tasks ==> TaskGood(rules, w.tasks[id])
  }

  ghost predicate RepliesGood(rules: Rules, w: Worker) {
    forall r :: r in w.replies ==> ReplyGood(rules, r)
  }

  ghost predicate Inv(rules: Rules, w: Worker) {
    StorageGood(rules, w.storage) && TasksGood(rules, w) && RepliesGood(rules, w)
  }

  /** A response the worker is about to keep obeys the rules. */
  ghost predicate Obeys(rules: Rules, t: Task, r: Response) {
    && (t.NavigationFetch? || t.InstallFetch? ==> IsCacheableResponse(r) ==> rules.shell(r))
    && (t.AssetFetch? || t.OtherFetch? || t.PrecacheFetch? ==> IsCacheableAsset(r) ==> rules.asset(t.url, r))
  }

  ghost predicate ObeysAt(rules: Rules, w: Worker, e: Event) {
    e.Network? && e.response.Some? && e.task in w.tasks ==> Obeys(rules, w.tasks[e.task], e.response.value)
  }

  /** The network, and the caches of earlier versions, obey the rules throughout a run. */
  ghost predicate ObeyingRun(rules: Rules, older: seq<map<Url, Response>>, events: seq<Event>) {
    && (forall i :: 0 <= i < |older| ==> OlderGood(rules, older[i]))
    && (forall k :: 0 <= k < |events| ==> ObeysAt(rules, Run(older, events[..k]), events[k]))
  }

  // ----- the storage operations keep what caches may hold -----

  lemma EmptyGood(rules: Rules, name: Name)
    ensures EntriesGood(rules, name, map[])
  {
  }

  lemma {:induction false} OpenGood(rules: Rules, s: Storage, name: Name)
    requires StorageGood(rules, s)
    ensures StorageGood(rules, Open(s, name))
  {
    hide EntriesGood;
    EmptyGood(rules, name);
    if s != [] {
      OpenGood(rules, s[1..], name);
    }
  }

  lemma {:induction false} PutGood(rules: Rules, s: Storage, name: Name, url: Url, r: Response)
    requires StorageGood(rules, s)
    requires forall entries :: EntriesGood(rules, name, entries) ==> EntriesGood(rules, name, entries[url := r])
    ensures StorageGood(rules, Put(s, name, url, r))
  {
    hide EntriesGood;
    EmptyGood(rules, name);
    if s != [] {
      PutGood(rules, s[1..], name, url, r);
    } else {
      var none: map<Url, Response> := map[];
      assert EntriesGood(rules, name, none[url := r]);
    }
  }

  lemma EntryRemoved(rules: Rules, name: Name, entries: map<Url, Response>, url: Url)
    requires EntriesGood(rules, name, entries)
    ensures EntriesGood(rules, name, entries - {url})
  {
  }

  lemma {:induction false} EvictGood(rules: Rules, s: Storage, name: Name, url: Url)
    requires StorageGood(rules, s)
    ensures StorageGood(rules, Evict(s, name, url))
  {
    hide EntriesGood;
    EmptyGood(rules, name);
    if s != [] {
      EvictGood(rules, s[1..], name, url);
      EntryRemoved(rules, s[0].name, s[0].entries, url);
    }
  }

  lemma {:induction false} DropGood(rules: Rules, s: Storage, name: Name)
    requires StorageGood(rules, s)
    ensures StorageGood(rules, Drop(s, name))
  {
    hide EntriesGood;
    if s != [] {
      DropGood(rules, s[1..], name);
    }
  }

  lemma {:induction false} ContentsGood(rules: Rules, s: Storage, name: Name)
    requires StorageGood(rules, s)
    ensures EntriesGood(rules, name, Contents(s, name))
  {
    hide EntriesGood;
    EmptyGood(rules, name);
    if s != [] {
      ContentsGood(rules, s[1..], name);
    }
  }

  lemma ShellIsNoAsset()
    ensures !IsImmutable(SHELL_URL)
  {
    assert SHELL_URL[1] == 'i';
  }

  /** A cache hit for an immutable URL that is not HTML is a good asset, and HTML has two possible origins. */
  lemma {:induction false} FindGood(rules: Rules, s: Storage, url: Url)
    requires StorageGood(rules, s)
    ensures var found := Find(s, url);
            && (IsImmutable(url) && found.Some? && !found.value.html ==> AssetGood(rules, url, found.value))
            && (found.Some? && found.value.html ==> url == SHELL_URL || rules.oldHtml(url))
  {
    ShellIsNoAsset();
    hide IsImmutable;
    if s != [] {
      assert EntriesGood(rules, s[0].name, s[0].entries);
      FindGood(rules, s[1..], url);
    }
  }

  // ----- each primitive keeps the invariant -----

  lemma BecomeKeeps(rules: Rules, w: Worker, id: nat, t: Task)
    requires Inv(rules, w) && TaskGood(rules, t)
    ensures Inv(rules, Become(w, id, t))
  {
    hide TaskGood, ReplyGood, EntriesGood;
  }

  lemma AnswerKeeps(rules: Rules, w: Worker, id: nat, url: Url, navigation: bool, cached: bool, r: Response)
    requires Inv(rules, w) && ReplyGood(rules, Reply(id, url, navigation, cached, r))
    ensures Inv(rules, Answer(w, id, url, navigation, cached, r))
  {
    hide TaskGood, ReplyGood, EntriesGood;
  }

  lemma EndKeeps(rules: Rules, w: Worker, id: nat)
    requires Inv(rules, w)
    ensures Inv(rules, End(w, id))
  {
    hide TaskGood, ReplyGood, EntriesGood;
  }

  lemma SpawnKeeps(rules: Rules, w: Worker, t: Task)
    requires Inv(rules, w) && TaskGood(rules, t)
    ensures Inv(rules, Spawn(w, t))
  {
    hide TaskGood, ReplyGood, EntriesGood;
  }

  lemma {:induction false} SpawnAllKeeps(rules: Rules, w: Worker, ts: seq<Task>)
    requires Inv(rules, w) && forall t :: t in ts ==> TaskGood(rules, t)
    ensures Inv(rules, SpawnAll(w, ts))
    decreases |ts|
  {
    hide Inv, Spawn, TaskGood;
    if ts != [] {
      SpawnKeeps(rules, w, ts[0]);
      SpawnAllKeeps(rules, Spawn(w, ts[0]), ts[1..]);
    }
  }

  lemma {:induction false} PrecachingGood(rules: Rules, urls: seq<Url>)
    ensures forall t :: t in Precaching(urls) ==> t.PrecacheFetch? && TaskGood(rules, t)
  {
    if urls != [] {
      PrecachingGood(rules, urls[1..]);
    }
  }

  lemma {:induction false} DroppingGood(rules: Rules, s: Storage)
    ensures forall t :: t in Dropping(s) ==> t.DropCache? && TaskGood(rules, t)
  {
    if s != [] {
      DroppingGood(rules, s[1..]);
    }
  }

  lemma KeepKeeps(rules: Rules, w: Worker, s: Storage)
    requires Inv(rules, w) && StorageGood(rules, s)
    ensures Inv(rules, Keep(w, s))
  {
    hide TaskGood, ReplyGood, StorageGood;
  }

  lemma OpenedKeeps(rules: Rules, w: Worker, name: Name, created: bool)
    requires Inv(rules, w)
    ensures Inv(rules, Opened(w, name, created)) && Opened(w, name, created).tasks == w.tasks
  {
    hide TasksGood, RepliesGood, StorageGood;
    OpenGood(rules, w.storage, name);
    KeepKeeps(rules, w, Open(w.storage, name));
  }

  lemma PutShellKeeps(rules: Rules, w: Worker, r: Response)
    requires Inv(rules, w) && rules.shell(r)
    ensures Inv(rules, Keep(w, Put(w.storage, Shell, SHELL_URL, r)))
  {
    hide TasksGood, RepliesGood, StorageGood;
    PutGood(rules, w.storage, Shell, SHELL_URL, r);
    KeepKeeps(rules, w, Put(w.storage, Shell, SHELL_URL, r));
  }

  lemma PutAssetKeeps(rules: Rules, w: Worker, url: Url, r: Response)
    requires Inv(rules, w) && AssetGood(rules, url, r)
    ensures Inv(rules, Keep(w, Put(w.storage, Assets, url, r)))
  {
    hide TasksGood, RepliesGood, StorageGood;
    PutGood(rules, w.storage, Assets, url, r);
    KeepKeeps(rules, w, Put(w.storage, Assets, url, r));
  }

  lemma TaskIsGood(rules: Rules, w: Worker, id: nat)
    requires Inv(rules, w) && id in w.tasks
    ensures TaskGood(rules, w.tasks[id])
  {
    hide TaskGood;
  }

  lemma NetworkKeeps(rules: Rules, w: Worker, id: nat, response: Option<Response>)
    requires Inv(rules, w) && id in w.tasks && TaskGood(rules, w.tasks[id])
    requires response.Some? ==> Obeys(rules, w.tasks[id], response.value)
    ensures Inv(rules, OnNetwork(w, id, response))
  {
    hide Inv, Become, Answer, End, IsImmutable;
    EndKeeps(rules, w, id);
    match w.tasks[id]
    case NavigationFetch(url) =>
      BecomeKeeps(rules, w, id, NavigationFallback(url));
      if response.Some? {
        AnswerKeeps(rules, w, id, url, true, false, response.value);
        if IsCacheableResponse(response.value) {
          BecomeKeeps(rules, w, id, NavigationStore(url, response.value));
        }
      }
    case AssetFetch(url) =>
      if response.Some? {
        AnswerKeeps(rules, w, id, url, false, false, response.value);
        if IsCacheableAsset(response.value) {
          BecomeKeeps(rules, w, id, AssetStore(url, response.value));
        }
      }
    case OtherFetch(url) =>
      BecomeKeeps(rules, w, id, OtherMatch(url));
      if response.Some? {
        AnswerKeeps(rules, w, id, url, false, false, response.value);
        if IsCacheableAsset(response.value) {
          BecomeKeeps(rules, w, id, OtherStore(url, response.value));
        }
      }
    case InstallFetch(urls) =>
      if response.Some? && IsCacheableResponse(response.value) {
        BecomeKeeps(rules, w, id, InstallStore(urls, response.value));
      }
    case PrecacheFetch(url) =>
      if response.Some? && IsCacheableAsset(response.value) {
        BecomeKeeps(rules, w, id, PrecacheStore(url, response.value));
      }
    case _ =>
  }

  lemma StoreKeeps(rules: Rules, w: Worker, id: nat, url: Url, r: Response)
    requires Inv(rules, w) && AssetGood(rules, url, r)
    ensures Inv(rules, Answer(Keep(w, Put(w.storage, Assets, url, r)), id, url, false, false, r))
    ensures Inv(rules, End(Keep(w, Put(w.storage, Assets, url, r)), id))
  {
    hide Inv, Answer, End, Keep, AssetGood;
    PutAssetKeeps(rules, w, url, r);
    AnswerKeeps(rules, Keep(w, Put(w.storage, Assets, url, r)), id, url, false, false, r);
    EndKeeps(rules, Keep(w, Put(w.storage, Assets, url, r)), id);
  }

  /** The lookups. */
  lemma LookupKeeps(rules: Rules, w: Worker, id: nat)
    requires Inv(rules, w) && id in w.tasks && TaskGood(rules, w.tasks[id])
    requires var t := w.tasks[id]; t.NavigationFallback? || t.NavigationSecond? || t.AssetMatch? || t.OtherMatch?
    ensures Inv(rules, OnAdvance(w, id))
  {
    var t := w.tasks[id];
    var url := if t.NavigationFallback? then SHELL_URL else t.url;
    FindGood(rules, w.storage, url);
    hide Inv, Become, Answer, End, IsImmutable, Find;
    EndKeeps(rules, w, id);
    if t.NavigationFallback? {
      BecomeKeeps(rules, w, id, NavigationSecond(t.url));
    }
    if t.AssetMatch? {
      BecomeKeeps(rules, w, id, AssetFetch(url));
      BecomeKeeps(rules, w, id, AssetDelete(url));
    }
    var found := Find(w.storage, url);
    if found.Some? && !(t.AssetMatch? && found.value.html) {
      AnswerKeeps(rules, w, id, t.url, t.NavigationFallback? || t.NavigationSecond?, true, found.value);
    }
  }

  /** The writes and deletions. */
  lemma WriteKeeps(rules: Rules, w: Worker, id: nat)
    requires Inv(rules, w) && id in w.tasks && TaskGood(rules, w.tasks[id])
    requires var t := w.tasks[id]; !(t.NavigationFallback? || t.NavigationSecond? || t.AssetMatch? || t.OtherMatch?)
    ensures Inv(rules, OnAdvance(w, id))
  {
    var s := w.storage;
    hide Inv, Become, Answer, End, Keep, IsImmutable, SpawnAll;
    match w.tasks[id]
    case NavigationStore(url, r) =>
      PutShellKeeps(rules, w, r);
      AnswerKeeps(rules, Keep(w, Put(s, Shell, SHELL_URL, r)), id, url, true, false, r);
    case AssetDelete(url) =>
      assert StorageGood(rules, s) by { InvStorage(rules, w); }
      EvictGood(rules, s, Assets, url);
      KeepKeeps(rules, w, Evict(s, Assets, url));
      BecomeKeeps(rules, Keep(w, Evict(s, Assets, url)), id, AssetFetch(url));
    case AssetStore(url, r) => StoreKeeps(rules, w, id, url, r);
    case OtherStore(url, r) => StoreKeeps(rules, w, id, url, r);
    case PrecacheStore(url, r) => StoreKeeps(rules, w, id, url, r);
    case InstallStore(urls, r) =>
      PutShellKeeps(rules, w, r);
      BecomeKeeps(rules, Keep(w, Put(s, Shell, SHELL_URL, r)), id, InstallOpen(urls));
    case InstallOpen(urls) =>
      OpenedKeeps(rules, w, Assets, true);
      EndKeeps(rules, Keep(w, Open(s, Assets)), id);
      PrecachingGood(rules, urls);
      SpawnAllKeeps(rules, End(Keep(w, Open(s, Assets)), id), Precaching(urls));
    case Activate =>
      EndKeeps(rules, w, id);
      DroppingGood(rules, s);
      SpawnAllKeeps(rules, End(w, id), Dropping(s));
    case DropCache(name) =>
      assert StorageGood(rules, s) by { InvStorage(rules, w); }
      DropGood(rules, s, name);
      KeepKeeps(rules, w, Drop(s, name));
      EndKeeps(rules, Keep(w, Drop(s, name)), id);
    case _ =>
  }

  lemma InvStorage(rules: Rules, w: Worker)
    requires Inv(rules, w)
    ensures StorageGood(rules, w.storage)
  {
  }

  lemma RejectKeeps(rules: Rules, w: Worker, id: nat, created: bool)
    requires Inv(rules, w) && id in w.tasks && TaskGood(rules, w.tasks[id])
    ensures Inv(rules, OnReject(w, id, created))
  {
    hide Inv, Become, End, Opened, IsImmutable;
    OpenedKeeps(rules, w, Shell, created);
    OpenedKeeps(rules, w, Assets, created);
    EndKeeps(rules, w, id);
    EndKeeps(rules, Opened(w, Shell, created), id);
    EndKeeps(rules, Opened(w, Assets, created), id);
    match w.tasks[id]
    case NavigationStore(url, _) => BecomeKeeps(rules, Opened(w, Shell, created), id, NavigationFallback(url));
    case OtherStore(url, _) => BecomeKeeps(rules, Opened(w, Assets, created), id, OtherMatch(url));
    case _ =>
  }

  lemma StepKeeps(rules: Rules, w: Worker, e: Event)
    requires Inv(rules, w) && ObeysAt(rules, w, e)
    ensures Inv(rules, Step(w, e))
  {
    hide Inv, Spawn, OnNetwork, OnAdvance, OnReject, IsImmutable, Obeys;
    match e
    case Fetch(url, navigation) => SpawnKeeps(rules, w, Start(url, navigation));
    case Install(urls) => SpawnKeeps(rules, w, InstallFetch(urls));
    case Activation => SpawnKeeps(rules, w, Activate);
    case Network(id, response) =>
      if id in w.tasks {
        TaskIsGood(rules, w, id);
        NetworkKeeps(rules, w, id, response);
      }
    case Advance(id) =>
      if id in w.tasks {
        TaskIsGood(rules, w, id);
        var t := w.tasks[id];
        if t.NavigationFallback? || t.NavigationSecond? || t.AssetMatch? || t.OtherMatch? {
          LookupKeeps(rules, w, id);
        } else {
          WriteKeeps(rules, w, id);
        }
      }
    case Reject(id, created) =>
      if id in w.tasks {
        TaskIsGood(rules, w, id);
        RejectKeeps(rules, w, id, created);
      }
  }

  /** One invariant over every run, for whatever rules the network obeys and whichever operations reject. */
  lemma {:induction false} RunKeeps(rules: Rules, older: seq<map<Url, Response>>, events: seq<Event>)
    requires ObeyingRun(rules, older, events)
    ensures Inv(rules, Run(older, events))
  {
    hide Step, ObeysAt, OlderGood;
    if events != [] {
      hide Inv;
      var n := |events| - 1;
      forall k | 0 <= k < n
        ensures ObeysAt(rules, Run(older, events[..n][..k]), events[..n][k])
      {
        assert events[..n][..k] == events[..k];
      }
      RunKeeps(rules, older, events[..n]);
      StepKeeps(rules, Run(older, events[..n]), events[n]);
    }
  }

  // ----- results about contents -----

  /** Rules every network obeys. */
  function AnyRules(older: seq<map<Url, Response>>): Rules {
    Rules((url: Url, r: Response) => true, (r: Response) => true, (url: Url) => HeldHtml(older, url))
  }

  /** Did a cache of an earlier version hold HTML under the URL? */
  predicate HeldHtml(older: seq<map<Url, Response>>, url: Url) {
    exists i :: 0 <= i < |older| && url in older[i] && older[i][url].html
  }

  lemma AnyRulesObeyed(older: seq<map<Url, Response>>, events: seq<Event>)
    ensures ObeyingRun(AnyRules(older), older, events)
  {
    hide Run, IsImmutable;
    forall i | 0 <= i < |older|
      ensures OlderGood(AnyRules(older), older[i])
    {
      forall url | url in older[i] && older[i][url].html
        ensures HeldHtml(older, url)
      {
      }
    }
  }

  /**
   Whatever the network answers, whatever older caches hold and whichever operations reject: the
   asset cache never holds HTML, the shell cache holds nothing but the shell key, and a cached
   answer to a request for an immutable URL that is not a navigation is never HTML. A cached
   answer to any request that is not a navigation is HTML only under the shell's own URL, or
   where an older cache held HTML.
   */
  lemma AssetCacheNeverHtml(older: seq<map<Url, Response>>, events: seq<Event>)
    ensures var w := Run(older, events);
            && (forall url :: url in Contents(w.storage, Assets) ==> !Contents(w.storage, Assets)[url].html)
            && (forall url :: url in Contents(w.storage, Shell) ==> url == SHELL_URL)
            && (forall r :: r in w.replies && IsCachedAsset(r) ==> !r.response.html)
            && (forall r :: r in w.replies && IsCachedHtml(r) ==> r.url == SHELL_URL || HeldHtml(older, r.url))
  {
    hide Run, IsImmutable, ObeyingRun, Contents, HeldHtml;
    var rules := AnyRules(older);
    AnyRulesObeyed(older, events);
    RunKeeps(rules, older, events);
    var w := Run(older, events);
    ContentsGood(rules, w.storage, Shell);
    ContentsGood(rules, w.storage, Assets);
    forall r | r in w.replies
      ensures ReplyGood(rules, r)
    {
    }
  }

  /** The rules of a network that serves one content under each immutable URL. */
  function OneContent(content: Url -> string): Rules {
    Rules((url: Url, r: Response) => IsImmutable(url) ==> r.body == content(url), (r: Response) => true,
          (url: Url) => true)
  }

  /** When every immutable URL has one content, any cached answer to it other than to a navigation is that content. */
  lemma CachedAssetIsGenuine(content: Url -> string, older: seq<map<Url, Response>>, events: seq<Event>, r: Reply)
    requires ObeyingRun(OneContent(content), older, events)
    requires r in Run(older, events).replies && IsCachedAsset(r)
    ensures !r.response.html && r.response.body == content(r.url)
  {
    hide Run, ObeyingRun, IsImmutable;
    RunKeeps(OneContent(content), older, events);
    assert ReplyGood(OneContent(content), r);
  }

  // ----- the offline shell -----

  /** The shell is absent or HTML. */
  predicate ShellIsHtml(w: Worker) {
    var shell := Contents(w.storage, Shell);
    SHELL_URL in shell ==> shell[SHELL_URL].html
  }

  /** The step completes a write of the shell. */
  predicate StoresShell(w: Worker, e: Event) {
    e.Advance? && e.task in w.tasks && (w.tasks[e.task].NavigationStore? || w.tasks[e.task].InstallStore?)
  }

  lemma {:induction false} ContentsPut(s: Storage, name: Name, url: Url, r: Response, other: Name)
    ensures Contents(Put(s, name, url, r), other)
            == if other == name then Contents(s, name)[url := r] else Contents(s, other)
  {
    if s != [] {
      ContentsPut(s[1..], name, url, r, other);
    }
  }

  lemma {:induction false} ContentsElsewhere(s: Storage, name: Name, url: Url, other: Name)
    requires other != name
    ensures Contents(Evict(s, name, url), other) == Contents(s, other)
    ensures Contents(Drop(s, name), other) == Contents(s, other)
  {
    if s != [] {
      ContentsElsewhere(s[1..], name, url, other);
    }
  }

  lemma {:induction false} ContentsOpen(s: Storage, name: Name, other: Name)
    ensures Contents(Open(s, name), other) == Contents(s, other)
  {
    if s != [] {
      ContentsOpen(s[1..], name, other);
    }
  }

  lemma {:induction false} SpawnAllStorage(w: Worker, ts: seq<Task>)
    ensures SpawnAll(w, ts).storage == w.storage
    decreases |ts|
  {
    if ts != [] {
      SpawnAllStorage(Spawn(w, ts[0]), ts[1..]);
    }
  }

  lemma OpenedShell(w: Worker, name: Name, created: bool)
    ensures Contents(Opened(w, name, created).storage, Shell) == Contents(w.storage, Shell)
    ensures Opened(w, name, created).tasks == w.tasks
  {
    hide Contents, Open;
    ContentsOpen(w.storage, name, Shell);
  }

  lemma AdvanceUntouched(rules: Rules, w: Worker, id: nat)
    requires id in w.tasks && TaskGood(rules, w.tasks[id])
    requires !w.tasks[id].NavigationStore? && !w.tasks[id].InstallStore?
    ensures Contents(OnAdvance(w, id).storage, Shell) == Contents(w.storage, Shell)
  {
    var s := w.storage;
    hide Contents, Put, Open, Evict, Drop, SpawnAll, Find, IsImmutable;
    match w.tasks[id]
    case AssetDelete(url) => ContentsElsewhere(s, Assets, url, Shell);
    case AssetStore(url, r) => ContentsPut(s, Assets, url, r, Shell);
    case OtherStore(url, r) => ContentsPut(s, Assets, url, r, Shell);
    case PrecacheStore(url, r) => ContentsPut(s, Assets, url, r, Shell);
    case InstallOpen(urls) =>
      ContentsOpen(s, Assets, Shell);
      SpawnAllStorage(End(Keep(w, Open(s, Assets)), id), Precaching(urls));
    case Activate => SpawnAllStorage(End(w, id), Dropping(s));
    case DropCache(name) => ContentsElsewhere(s, name, "", Shell);
    case _ =>
  }

  lemma RejectUntouched(w: Worker, id: nat, created: bool)
    requires id in w.tasks
    ensures Contents(OnReject(w, id, created).storage, Shell) == Contents(w.storage, Shell)
  {
    hide Contents, Opened;
    OpenedShell(w, Shell, created);
    OpenedShell(w, Assets, created);
  }

  /** A step that completes no write of the shell leaves the shell as it is. */
  lemma ShellUntouched(rules: Rules, w: Worker, e: Event)
    requires Inv(rules, w) && !StoresShell(w, e)
    ensures Contents(Step(w, e).storage, Shell) == Contents(w.storage, Shell)
  {
    hide Inv, Contents, OnAdvance, OnReject, IsImmutable;
    if (e.Advance? || e.Reject?) && e.task in w.tasks {
      TaskIsGood(rules, w, e.task);
      if e.Advance? {
        AdvanceUntouched(rules, w, e.task);
      } else {
        RejectUntouched(w, e.task, e.created);
      }
    }
  }

  /** A step that completes one makes that response the whole shell. */
  lemma ShellStored(rules: Rules, w: Worker, e: Event)
    requires Inv(rules, w) && StoresShell(w, e)
    ensures Contents(Step(w, e).storage, Shell) == map[SHELL_URL := w.tasks[e.task].response]
  {
    var r := w.tasks[e.task].response;
    ContentsPut(w.storage, Shell, SHELL_URL, r, Shell);
    InvStorage(rules, w);
    ContentsGood(rules, w.storage, Shell);
    hide Inv, Contents, Put, StorageGood;
    assert Contents(w.storage, Shell)[SHELL_URL := r] == map[SHELL_URL := r];
  }

  lemma {:induction false} NoShellYet(s: Storage)
    requires forall c :: c in s ==> c.name.Old?
    ensures Contents(s, Shell) == map[]
  {
    if s != [] {
      NoShellYet(s[1..]);
    }
  }

  /** A completed write of the shell, if the step is one, is of HTML. */
  predicate StoresHtml(w: Worker, e: Event) {
    StoresShell(w, e) ==> w.tasks[e.task].response.html
  }

  lemma ShellHtmlStep(older: seq<map<Url, Response>>, events: seq<Event>, k: nat)
    requires k < |events|
    ensures var w := Run(older, events[..k]);
            && (StoresShell(w, events[k]) ==> (ShellIsHtml(Run(older, events[..k + 1])) <==> StoresHtml(w, events[k])))
            && (!StoresShell(w, events[k]) ==>
                  StoresHtml(w, events[k]) && (ShellIsHtml(Run(older, events[..k + 1])) <==> ShellIsHtml(w)))
  {
    var w := Run(older, events[..k]);
    RunPrefix(older, events, k);
    AnyRulesObeyed(older, events[..k]);
    hide Run, Step, ObeyingRun, Contents, StoresShell, Inv;
    RunKeeps(AnyRules(older), older, events[..k]);
    if StoresShell(w, events[k]) {
      ShellStored(AnyRules(older), w, events[k]);
    } else {
      ShellUntouched(AnyRules(older), w, events[k]);
    }
  }

  lemma {:induction false} ShellHtmlSoFar(older: seq<map<Url, Response>>, events: seq<Event>, n: nat)
    requires n <= |events| && forall k :: 0 <= k < n ==> StoresHtml(Run(older, events[..k]), events[k])
    ensures ShellIsHtml(Run(older, events[..n]))
  {
    hide Run, ShellIsHtml, StoresHtml, StoresShell;
    if n == 0 {
      FreshShell(older);
      assert events[..0] == [];
    } else {
      ShellHtmlSoFar(older, events, n - 1);
      ShellHtmlStep(older, events, n - 1);
      assert StoresHtml(Run(older, events[..n - 1]), events[n - 1]);
    }
  }

  lemma FreshShell(older: seq<map<Url, Response>>)
    ensures ShellIsHtml(Run(older, []))
  {
    NoShellYet(Fresh(older).storage);
  }

  /**
   The shell is HTML throughout a run exactly when every response that a navigation or an install
   stored as the shell was.
   */
  lemma ShellHtmlExactly(older: seq<map<Url, Response>>, events: seq<Event>)
    ensures (forall k :: 0 <= k <= |events| ==> ShellIsHtml(Run(older, events[..k])))
            <==> (forall k :: 0 <= k < |events| ==> StoresHtml(Run(older, events[..k]), events[k]))
  {
    hide Run, ShellIsHtml, StoresHtml, StoresShell;
    if forall k :: 0 <= k < |events| ==> StoresHtml(Run(older, events[..k]), events[k]) {
      forall k | 0 <= k <= |events|
        ensures ShellIsHtml(Run(older, events[..k]))
      {
        ShellHtmlSoFar(older, events, k);
      }
    }
    if forall k :: 0 <= k <= |events| ==> ShellIsHtml(Run(older, events[..k])) {
      forall k | 0 <= k < |events|
        ensures StoresHtml(Run(older, events[..k]), events[k])
      {
        ShellHtmlStep(older, events, k);
        assert ShellIsHtml(Run(older, events[..k + 1]));
      }
    }
  }

  /** The rules of a network that answers navigations and installs with HTML. */
  const HtmlShell: Rules := Rules((url: Url, r: Response) => true, (r: Response) => r.html, (url: Url) => true)

  /** So the offline shell is HTML as long as every cacheable answer to a navigation or an install is. */
  lemma ShellStaysHtml(older: seq<map<Url, Response>>, events: seq<Event>)
    requires ObeyingRun(HtmlShell, older, events)
    ensures ShellIsHtml(Run(older, events))
  {
    hide Run, ObeyingRun, Contents;
    RunKeeps(HtmlShell, older, events);
    ContentsGood(HtmlShell, Run(older, events).storage, Shell);
  }

  /** Such a write happens for any URL: here a navigation to a script makes that script the shell. */
  lemma ShellCanBeReplaced(script: Response)
    requires IsCacheableResponse(script) && !script.html
    ensures !ShellIsHtml(Run([], [Fetch("/assets/a.js", true), Network(0, Some(script)), Advance(0)]))
  {
    var url := "/assets/a.js";
    var events := [Fetch(url, true), Network(0, Some(script)), Advance(0)];
    hide IsImmutable;
    var w1 := Step(Fresh([]), events[0]);
    assert w1.tasks == map[0 := NavigationFetch(url)] && w1.storage == [];
    var w2 := Step(w1, events[1]);
    assert w2.tasks[0] == NavigationStore(url, script) && w2.storage == [];
    var w3 := Step(w2, events[2]);
    assert w3.storage == [Cache(Shell, map[SHELL_URL := script])];
    hide Step;
    assert events[..3] == events && events[..0] == [];
    RunPrefix([], events, 0);
    RunPrefix([], events, 1);
    RunPrefix([], events, 2);
  }

  lemma RunPrefix(older: seq<map<Url, Response>>, events: seq<Event>, k: nat)
    requires k < |events|
    ensures Run(older, events[..k + 1]) == Step(Run(older, events[..k]), events[k])
  {
    hide Step;
    assert events[..k + 1][..k] == events[..k];
  }

  // ----- network first -----

  /** The step makes the request of network-first handler `id` fail, or rejects its write. */
  predicate Fails(w: Worker, e: Event, id: nat) {
    && id in w.tasks
    && var t := w.tasks[id];
       || (e == Network(id, None) && (t.NavigationFetch? || t.OtherFetch?))
       || (e.Reject? && e.task == id && (t.NavigationStore? || t.OtherStore?))
  }

  /** The handlers whose own request failed or whose own write was rejected. */
  ghost function FailedHandlers(older: seq<map<Url, Response>>, events: seq<Event>): set<nat> {
    if events == [] then {}
    else
      var front, e := events[..|events| - 1], events[|events| - 1];
      var w := Run(older, front);
      FailedHandlers(older, front) + set id | id in w.tasks && Fails(w, e, id)
  }

  /** A network-first handler is on its fallback branch exactly when it has failed. */
  ghost predicate TaskTold(t: Task, failed: bool) {
    && (t.NavigationFallback? || t.NavigationSecond? || t.OtherMatch? ==> failed)
    && (t.NavigationFetch? || t.NavigationStore? || t.OtherFetch? || t.OtherStore? ==> !failed)
    && (t.AssetMatch? || t.AssetDelete? || t.AssetFetch? || t.AssetStore? ==> IsImmutable(t.url))
  }

  /** Was the request handled network-first? */
  predicate IsNetworkFirst(r: Reply) {
    r.navigation || !IsImmutable(r.url)
  }

  ghost predicate ReplyTold(r: Reply, failed: bool) {
    IsNetworkFirst(r) ==> (r.cached <==> failed)
  }

  ghost predicate Told(w: Worker, failed: set<nat>) {
    && (forall id :: id in w.tasks ==> id < w.nextTask && TaskTold(w.tasks[id], id in failed))
    && (forall id :: id in failed ==> id < w.nextTask)
    && (forall r :: r in w.replies ==> r.task < w.nextTask && r.task !in w.tasks && ReplyTold(r, r.task in failed))
  }

  lemma BecomeTold(w: Worker, failed: set<nat>, id: nat, t: Task)
    requires Told(w, failed) && id in w.tasks
    ensures TaskTold(t, id in failed) ==> Told(Become(w, id, t), failed)
    ensures TaskTold(t, true) ==> Told(Become(w, id, t), failed + {id})
  {
    hide TaskTold, ReplyTold;
  }

  lemma EndTold(w: Worker, failed: set<nat>, id: nat)
    requires Told(w, failed)
    ensures Told(End(w, id), failed)
  {
    hide TaskTold, ReplyTold;
  }

  lemma AnswerTold(w: Worker, failed: set<nat>, id: nat, url: Url, navigation: bool, cached: bool, r: Response)
    requires Told(w, failed) && id in w.tasks && ReplyTold(Reply(id, url, navigation, cached, r), id in failed)
    ensures Told(Answer(w, id, url, navigation, cached, r), failed)
  {
    hide TaskTold, ReplyTold;
  }

  lemma SpawnTold(w: Worker, failed: set<nat>, t: Task)
    requires Told(w, failed) && TaskTold(t, false)
    ensures Told(Spawn(w, t), failed)
  {
    hide TaskTold, ReplyTold;
  }

  lemma {:induction false} SpawnAllTold(w: Worker, failed: set<nat>, ts: seq<Task>)
    requires Told(w, failed) && forall t :: t in ts ==> TaskTold(t, false)
    ensures Told(SpawnAll(w, ts), failed)
    decreases |ts|
  {
    hide Told, TaskTold, Spawn;
    if ts != [] {
      SpawnTold(w, failed, ts[0]);
      SpawnAllTold(Spawn(w, ts[0]), failed, ts[1..]);
    }
  }

  lemma KeepTold(w: Worker, failed: set<nat>, s: Storage)
    requires Told(w, failed)
    ensures Told(Keep(w, s), failed) && Keep(w, s).tasks == w.tasks
  {
    hide TaskTold, ReplyTold;
  }

  lemma OpenedTold(w: Worker, failed: set<nat>, name: Name, created: bool)
    requires Told(w, failed)
    ensures Told(Opened(w, name, created), failed) && Opened(w, name, created).tasks == w.tasks
  {
    hide Told, Open;
    KeepTold(w, failed, Open(w.storage, name));
  }

  lemma TaskIsTold(w: Worker, failed: set<nat>, id: nat)
    requires Told(w, failed) && id in w.tasks
    ensures TaskTold(w.tasks[id], id in failed)
  {
    hide TaskTold, ReplyTold;
  }

  lemma NetworkTold(w: Worker, failed: set<nat>, id: nat, response: Option<Response>)
    requires Told(w, failed) && id in w.tasks && TaskTold(w.tasks[id], id in failed)
    ensures Told(OnNetwork(w, id, response), if Fails(w, Network(id, response), id) then failed + {id} else failed)
  {
    hide Told, Become, Answer, End, IsImmutable, IsCacheableResponse, IsCacheableAsset;
    EndTold(w, failed, id);
    var t := w.tasks[id];
    match t
    case NavigationFetch(url) =>
      BecomeTold(w, failed, id, NavigationFallback(url));
      if response.Some? {
        BecomeTold(w, failed, id, NavigationStore(url, response.value));
        AnswerTold(w, failed, id, url, true, false, response.value);
      }
    case OtherFetch(url) =>
      BecomeTold(w, failed, id, OtherMatch(url));
      if response.Some? {
        BecomeTold(w, failed, id, OtherStore(url, response.value));
        AnswerTold(w, failed, id, url, false, false, response.value);
      }
    case AssetFetch(url) =>
      if response.Some? {
        BecomeTold(w, failed, id, AssetStore(url, response.value));
        AnswerTold(w, failed, id, url, false, false, response.value);
      }
    case InstallFetch(urls) =>
      if response.Some? {
        BecomeTold(w, failed, id, InstallStore(urls, response.value));
      }
    case PrecacheFetch(url) =>
      if response.Some? {
        BecomeTold(w, failed, id, PrecacheStore(url, response.value));
      }
    case _ =>
  }

  lemma LookupTold(w: Worker, failed: set<nat>, id: nat)
    requires Told(w, failed) && id in w.tasks && TaskTold(w.tasks[id], id in failed)
    requires var t := w.tasks[id]; t.NavigationFallback? || t.NavigationSecond? || t.AssetMatch? || t.OtherMatch?
    ensures Told(OnAdvance(w, id), failed)
  {
    hide Told, Become, Answer, End, IsImmutable, Find;
    EndTold(w, failed, id);
    var t := w.tasks[id];
    if t.NavigationFallback? {
      BecomeTold(w, failed, id, NavigationSecond(t.url));
    }
    if t.AssetMatch? {
      BecomeTold(w, failed, id, AssetFetch(t.url));
      BecomeTold(w, failed, id, AssetDelete(t.url));
    }
    var found := Find(w.storage, if t.NavigationFallback? then SHELL_URL else t.url);
    if found.Some? {
      AnswerTold(w, failed, id, t.url, t.NavigationFallback? || t.NavigationSecond?, true, found.value);
    }
  }

  lemma WriteTold(w: Worker, failed: set<nat>, id: nat)
    requires Told(w, failed) && id in w.tasks && TaskTold(w.tasks[id], id in failed)
    requires var t := w.tasks[id]; !(t.NavigationFallback? || t.NavigationSecond? || t.AssetMatch? || t.OtherMatch?)
    ensures Told(OnAdvance(w, id), failed)
  {
    var s := w.storage;
    hide Told, Become, Answer, End, Keep, IsImmutable, SpawnAll, Put, Evict, Open, Drop;
    match w.tasks[id]
    case NavigationStore(url, r) =>
      KeepTold(w, failed, Put(s, Shell, SHELL_URL, r));
      AnswerTold(Keep(w, Put(s, Shell, SHELL_URL, r)), failed, id, url, true, false, r);
    case AssetDelete(url) =>
      KeepTold(w, failed, Evict(s, Assets, url));
      BecomeTold(Keep(w, Evict(s, Assets, url)), failed, id, AssetFetch(url));
    case AssetStore(url, r) =>
      KeepTold(w, failed, Put(s, Assets, url, r));
      AnswerTold(Keep(w, Put(s, Assets, url, r)), failed, id, url, false, false, r);
    case OtherStore(url, r) =>
      KeepTold(w, failed, Put(s, Assets, url, r));
      AnswerTold(Keep(w, Put(s, Assets, url, r)), failed, id, url, false, false, r);
    case PrecacheStore(url, r) =>
      KeepTold(w, failed, Put(s, Assets, url, r));
      EndTold(Keep(w, Put(s, Assets, url, r)), failed, id);
    case InstallStore(urls, r) =>
      KeepTold(w, failed, Put(s, Shell, SHELL_URL, r));
      BecomeTold(Keep(w, Put(s, Shell, SHELL_URL, r)), failed, id, InstallOpen(urls));
    case InstallOpen(urls) =>
      KeepTold(w, failed, Open(s, Assets));
      EndTold(Keep(w, Open(s, Assets)), failed, id);
      PrecachingGood(HtmlShell, urls);
      SpawnAllTold(End(Keep(w, Open(s, Assets)), id), failed, Precaching(urls));
    case Activate =>
      EndTold(w, failed, id);
      DroppingGood(HtmlShell, s);
      SpawnAllTold(End(w, id), failed, Dropping(s));
    case DropCache(name) =>
      KeepTold(w, failed, Drop(s, name));
      EndTold(Keep(w, Drop(s, name)), failed, id);
    case _ =>
  }

  lemma RejectTold(w: Worker, failed: set<nat>, id: nat, created: bool)
    requires Told(w, failed) && id in w.tasks
    ensures Told(OnReject(w, id, created), if Fails(w, Reject(id, created), id) then failed + {id} else failed)
  {
    hide Told, Become, End, Opened, IsImmutable;
    OpenedTold(w, failed, Shell, created);
    OpenedTold(w, failed, Assets, created);
    EndTold(w, failed, id);
    EndTold(Opened(w, Shell, created), failed, id);
    EndTold(Opened(w, Assets, created), failed, id);
    match w.tasks[id]
    case NavigationStore(url, _) => BecomeTold(Opened(w, Shell, created), failed, id, NavigationFallback(url));
    case OtherStore(url, _) => BecomeTold(Opened(w, Assets, created), failed, id, OtherMatch(url));
    case _ =>
  }

  lemma StepTold(w: Worker, failed: set<nat>, e: Event)
    requires Told(w, failed)
    ensures Told(Step(w, e), failed + set id | id in w.tasks && Fails(w, e, id))
  {
    hide Told, Spawn, OnNetwork, OnAdvance, OnReject;
    var failing := set id | id in w.tasks && Fails(w, e, id);
    match e
    case Fetch(url, navigation) =>
      assert failed + failing == failed;
      SpawnTold(w, failed, Start(url, navigation));
    case Install(urls) =>
      assert failed + failing == failed;
      SpawnTold(w, failed, InstallFetch(urls));
    case Activation =>
      assert failed + failing == failed;
      SpawnTold(w, failed, Activate);
    case Network(id, response) =>
      assert failed + failing == if Fails(w, e, id) then failed + {id} else failed;
      if id in w.tasks {
        TaskIsTold(w, failed, id);
        NetworkTold(w, failed, id, response);
      }
    case Advance(id) =>
      assert failed + failing == failed;
      if id in w.tasks {
        TaskIsTold(w, failed, id);
        var t := w.tasks[id];
        if t.NavigationFallback? || t.NavigationSecond? || t.AssetMatch? || t.OtherMatch? {
          LookupTold(w, failed, id);
        } else {
          WriteTold(w, failed, id);
        }
      }
    case Reject(id, created) =>
      assert failed + failing == if Fails(w, e, id) then failed + {id} else failed;
      if id in w.tasks {
        RejectTold(w, failed, id, created);
      }
  }

  lemma {:induction false} RunTold(older: seq<map<Url, Response>>, events: seq<Event>)
    ensures Told(Run(older, events), FailedHandlers(older, events))
  {
    hide Step, Fails;
    if events != [] {
      hide Told;
      var front, e := events[..|events| - 1], events[|events| - 1];
      RunTold(older, front);
      StepTold(Run(older, front), FailedHandlers(older, front), e);
    }
  }

  /** Somewhere in the run handler `id` failed. */
  ghost predicate HasFailed(older: seq<map<Url, Response>>, events: seq<Event>, id: nat) {
    exists k :: 0 <= k < |events| && Fails(Run(older, events[..k]), events[k], id)
  }

  lemma {:induction false} FailedHandlersExact(older: seq<map<Url, Response>>, events: seq<Event>, id: nat)
    ensures id in FailedHandlers(older, events) <==> HasFailed(older, events, id)
  {
    hide Run, Fails;
    if events != [] {
      var n := |events| - 1;
      var front := events[..n];
      FailedHandlersExact(older, front, id);
      FailingTask(Run(older, front), events[n], id);
      if HasFailed(older, front, id) {
        var k :| 0 <= k < n && Fails(Run(older, front[..k]), front[k], id);
        assert front[..k] == events[..k] && front[k] == events[k];
      }
      if HasFailed(older, events, id) {
        var k :| 0 <= k < |events| && Fails(Run(older, events[..k]), events[k], id);
        if k < n {
          assert front[..k] == events[..k] && front[k] == events[k];
        }
      }
    }
  }

  lemma FailingTask(w: Worker, e: Event, id: nat)
    ensures Fails(w, e, id) ==> id in w.tasks
  {
  }

  /**
   In every run a handler is on its fallback branch exactly when its own request failed or its
   own write was rejected.
   */
  lemma FallbackExactly(older: seq<map<Url, Response>>, events: seq<Event>, id: nat)
    requires id in Run(older, events).tasks
    ensures var t := Run(older, events).tasks[id];
            && (t.NavigationFallback? || t.NavigationSecond? || t.OtherMatch? ==> HasFailed(older, events, id))
            && (t.NavigationFetch? || t.NavigationStore? || t.OtherFetch? || t.OtherStore? ==>
                  !HasFailed(older, events, id))
  {
    hide Run, HasFailed, IsImmutable, FailedHandlers;
    RunTold(older, events);
    FailedHandlersExact(older, events, id);
    TaskIsTold(Run(older, events), FailedHandlers(older, events), id);
  }

  /**
   Network first: a navigation, or a request that is not for an immutable asset, is answered from
   a cache exactly when the request of its own handler failed or the write of its answer was
   rejected.
   */
  lemma CachedExactly(older: seq<map<Url, Response>>, events: seq<Event>, r: Reply)
    requires r in Run(older, events).replies && IsNetworkFirst(r)
    ensures r.cached <==> HasFailed(older, events, r.task)
  {
    hide Run, HasFailed, IsImmutable, FailedHandlers;
    RunTold(older, events);
    FailedHandlersExact(older, events, r.task);
  }

  /** Two navigations: one to `/a`, stored, and one to `/b`, fetched but with its write rejected. */
  function QuotaTrace(older: Response, newer: Response): seq<Event> {
    [Fetch("/a", true), Network(0, Some(older)), Advance(0),
     Fetch("/b", true), Network(1, Some(newer)), Reject(1, true), Advance(1)]
  }

  /** The worker after the first of them. */
  function AfterFirst(older: Response): Worker {
    Worker([Cache(Shell, map[SHELL_URL := older])], map[], 1, [Reply(0, "/a", true, false, older)])
  }

  lemma FirstNavigation(older: Response, newer: Response)
    requires IsCacheableResponse(older)
    ensures Run([], QuotaTrace(older, newer)[..3]) == AfterFirst(older)
  {
    var events := QuotaTrace(older, newer);
    hide IsImmutable;
    var w1 := Step(Fresh([]), events[0]);
    assert w1 == Worker([], map[0 := NavigationFetch("/a")], 1, []);
    var w2 := Step(w1, events[1]);
    assert w2 == Worker([], map[0 := NavigationStore("/a", older)], 1, []);
    assert Step(w2, events[2]) == AfterFirst(older);
    hide Step;
    assert events[..0] == [];
    RunPrefix([], events, 0);
    RunPrefix([], events, 1);
    RunPrefix([], events, 2);
  }

  /** A page that is fetched, but whose write is rejected, is answered by the older cached one. */
  lemma CachedAlthoughOnline(older: Response, newer: Response)
    requires IsCacheableResponse(older) && IsCacheableResponse(newer)
    ensures Run([], QuotaTrace(older, newer)).replies
            == [Reply(0, "/a", true, false, older), Reply(1, "/b", true, true, older)]
  {
    var events := QuotaTrace(older, newer);
    hide IsImmutable, Run;
    FirstNavigation(older, newer);
    var w3 := AfterFirst(older);
    var w4 := Step(w3, events[3]);
    assert w4 == w3.(tasks := map[1 := NavigationFetch("/b")], nextTask := 2);
    var w5 := Step(w4, events[4]);
    assert w5 == w4.(tasks := map[1 := NavigationStore("/b", newer)]);
    var w6 := Step(w5, events[5]);
    assert w6 == w4.(tasks := map[1 := NavigationFallback("/b")]);
    assert Step(w6, events[6]).replies == w3.replies + [Reply(1, "/b", true, true, older)];
    hide Step;
    assert events[..7] == events;
    RunPrefix([], events, 3);
    RunPrefix([], events, 4);
    RunPrefix([], events, 5);
    RunPrefix([], events, 6);
  }

  // ----- the storage in place -----

  type Stores = map<Name, map<Url, Response>>

  function Listing(names: seq<Name>, stores: Stores): (s: Storage)
    requires forall n :: n in names ==> n in stores
    ensures |s| == |names|
  {
    if names == [] then [] else [Cache(names[0], stores[names[0]])] + Listing(names[1..], stores)
  }

  lemma {:induction false} ListingOther(names: seq<Name>, stores: Stores, name: Name, entries: map<Url, Response>)
    requires forall n :: n in names ==> n in stores
    requires name !in names
    ensures Listing(names, stores[name := entries]) == Listing(names, stores)
    ensures Listing(names, stores - {name}) == Listing(names, stores)
  {
    if names != [] {
      ListingOther(names[1..], stores, name, entries);
    }
  }

  lemma {:induction false} OpenListing(names: seq<Name>, stores: Stores, name: Name)
    requires forall n :: n in names ==> n in stores
    ensures name in names ==> Open(Listing(names, stores), name) == Listing(names, stores)
    ensures name !in names ==> Open(Listing(names, stores), name) == Listing(names + [name], stores[name := map[]])
  {
    if names != [] {
      OpenListing(names[1..], stores, name);
      assert (names + [name])[1..] == names[1..] + [name];
    }
  }

  /** Opening first changes nothing for what follows. */
  lemma {:induction false} OpenFirst(s: Storage, name: Name, url: Url, r: Response)
    ensures Put(Open(s, name), name, url, r) == Put(s, name, url, r)
    ensures Evict(Open(s, name), name, url) == Evict(s, name, url)
  {
    if s != [] && s[0].name != name {
      OpenFirst(s[1..], name, url, r);
    }
  }

  lemma {:induction false} UpdateListing(names: seq<Name>, stores: Stores, name: Name, url: Url, r: Response)
    requires (forall n :: n in names ==> n in stores) && name in names
    requires forall i, j :: 0 <= i < j < |names| ==> names[i] != names[j]
    ensures Put(Listing(names, stores), name, url, r) == Listing(names, stores[name := stores[name][url := r]])
    ensures Evict(Listing(names, stores), name, url) == Listing(names, stores[name := stores[name] - {url}])
  {
    if names[0] == name {
      ListingOther(names[1..], stores, name, stores[name][url := r]);
      ListingOther(names[1..], stores, name, stores[name] - {url});
    } else {
      UpdateListing(names[1..], stores, name, url, r);
    }
  }

  lemma {:induction false} DropListing(names: seq<Name>, stores: Stores, i: nat)
    requires (forall n :: n in names ==> n in stores) && i < |names|
    requires forall i, j :: 0 <= i < j < |names| ==> names[i] != names[j]
    ensures Drop(Listing(names, stores), names[i]) == Listing(names[..i] + names[i + 1..], stores - {names[i]})
  {
    if i == 0 {
      assert names[..0] + names[1..] == names[1..];
      ListingOther(names[1..], stores, names[0], map[]);
    } else {
      DropListing(names[1..], stores, i - 1);
      assert (names[..i] + names[i + 1..])[1..] == names[1..][..i - 1] + names[1..][i..];
    }
  }

  lemma {:induction false} DropAbsent(s: Storage, name: Name)
    requires forall c :: c in s ==> c.name != name
    ensures Drop(s, name) == s
  {
    if s != [] {
      DropAbsent(s[1..], name);
    }
  }

  lemma {:induction false} ListingAt(names: seq<Name>, stores: Stores, i: nat)
    requires (forall n :: n in names ==> n in stores) && i < |names|
    ensures Listing(names, stores)[i] == Cache(names[i], stores[names[i]])
    ensures Listing(names, stores)[i..] == Listing(names[i..], stores)
  {
    if i > 0 {
      ListingAt(names[1..], stores, i - 1);
      assert names[1..][i - 1..] == names[i..];
    }
  }

  lemma DropUnlisted(names: seq<Name>, stores: Stores, name: Name)
    requires (forall n :: n in names ==> n in stores) && name !in names
    ensures Drop(Listing(names, stores), name) == Listing(names, stores)
  {
    hide Listing, Drop;
    var s := Listing(names, stores);
    forall c | c in s
      ensures c.name != name
    {
      var i :| 0 <= i < |names| && s[i] == c;
      ListingAt(names, stores, i);
    }
    DropAbsent(s, name);
  }

  lemma DroppingListing(names: seq<Name>, stores: Stores, i: nat)
    requires (forall n :: n in names ==> n in stores) && i < |names|
    ensures Dropping(Listing(names[i..], stores))
            == (if names[i].Old? then [DropCache(names[i])] else []) + Dropping(Listing(names[i + 1..], stores))
  {
    assert names[i..][1..] == names[i + 1..];
  }

  lemma DroppingNothing(names: seq<Name>, stores: Stores)
    ensures Dropping(Listing(names[|names|..], stores)) == []
  {
  }

  /** The origin's cache storage: the names in order of creation, and what each cache holds. */
  class CacheStorage {
    var names: seq<Name>
    var stores: Stores

    ghost predicate Valid()
      reads this
    {
      && (forall i, j :: 0 <= i < j < |names| ==> names[i] != names[j])
      && (forall n :: n in names <==> n in stores)
    }

    ghost function View(): Storage
      requires Valid()
      reads this
    {
      Listing(names, stores)
    }

    constructor ()
      ensures Valid() && View() == []
    {
      names, stores := [], map[];
    }

    method OpenCache(name: Name)
      requires Valid()
      modifies this
      ensures Valid() && View() == Open(old(View()), name)
      ensures name in names
    {
      OpenListing(names, stores, name);
      if name !in stores {
        names := names + [name];
        stores := stores[name := map[]];
      }
    }

    /** `(await caches.open(name)).put(url, r)`. */
    method PutEntry(name: Name, url: Url, r: Response)
      requires Valid()
      modifies this
      ensures Valid() && View() == Put(old(View()), name, url, r)
    {
      OpenFirst(View(), name, url, r);
      OpenCache(name);
      UpdateListing(names, stores, name, url, r);
      stores := stores[name := stores[name][url := r]];
    }

    /** `(await caches.open(name)).delete(url)`. */
    method DeleteEntry(name: Name, url: Url)
      requires Valid()
      modifies this
      ensures Valid() && View() == Evict(old(View()), name, url)
    {
      OpenFirst(View(), name, url, Response(false, false, false, ""));
      OpenCache(name);
      UpdateListing(names, stores, name, url, Response(false, false, false, ""));
      stores := stores[name := stores[name] - {url}];
    }

    /** `caches.match(url)`: asks the caches in order of creation. */
    method MatchUrl(url: Url) returns (found: Option<Response>)
      requires Valid()
      ensures found == Find(View(), url)
    {
      for i := 0 to |names|
        invariant Find(View(), url) == Find(Listing(names[i..], stores), url)
      {
        if url in stores[names[i]] {
          return Some(stores[names[i]][url]);
        }
        assert names[i..][1..] == names[i + 1..];
      }
      found := None;
    }

    /** `caches.delete(name)`. */
    method DeleteCache(name: Name)
      requires Valid()
      modifies this
      ensures Valid() && View() == Drop(old(View()), name)
    {
      hide Drop, Listing;
      for i := 0 to |names|
        invariant forall j :: 0 <= j < i ==> names[j] != name
        invariant names == old(names) && stores == old(stores)
      {
        if names[i] == name {
          DropListing(names, stores, i);
          names := names[..i] + names[i + 1..];
          stores := stores - {name};
          return;
        }
      }
      DropUnlisted(names, stores, name);
    }

    /** The activation's `keys`, filtered to the caches of earlier versions. */
    method StaleCaches() returns (drops: seq<Task>)
      requires Valid()
      ensures drops == Dropping(View())
    {
      hide Listing, Dropping;
      drops := [];
      assert names[0..] == names;
      for i := 0 to |names|
        invariant Dropping(View()) == drops + Dropping(Listing(names[i..], stores))
      {
        DroppingListing(names, stores, i);
        if names[i].Old? {
          drops := drops + [DropCache(names[i])];
        }
      }
      DroppingNothing(names, stores);
    }
  }
}
