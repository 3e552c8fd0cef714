/**
 What installs and activations of the service worker achieve, over every interleaving: the shell
 and every URL to precache are tried and kept, and caches of earlier versions go for good.
 */
module CacheLifecycle {
  import opened Collections
  import opened CacheWorker
  import opened CacheReplies

  // ----- installing -----

  /** An install ends early: its page could not be fetched or kept. */
  predicate InstallFails(m: Moment, id: nat) {
    Own(m, id) &&
    match m.before.tasks[id]
    case InstallFetch(_) =>
      m.event.Network? && (m.event.response == None
                           || !m.event.response.value.ok || !m.event.response.value.basic)
    case InstallStore(_, _) => m.event.Reject?
    case InstallOpen(_) => m.event.Reject?
    case _ => false
  }

  /** The install opens the asset cache and starts its precaching. */
  predicate StartsPrecaching(m: Moment, id: nat, urls: seq<Url>) {
    Own(m, id) && m.event == Advance(id) && m.before.tasks[id] == InstallOpen(urls)
  }

  /** The page that the network answered the install has been put into the shell cache by it. */
  ghost predicate ShellInstalled(h: seq<Moment>, id: nat) {
    exists r: Response :: Fetched(h, id, r) && WasKept(h, id, Shell, "/index.html", r)
  }

  ghost predicate InstallTold(h: seq<Moment>, w: Worker, id: nat, urls: seq<Url>) {
    id < w.nextTask &&
    if id in w.tasks then
      match w.tasks[id]
      case InstallFetch(u) => u == urls
      case InstallStore(u, r) => u == urls && Fetched(h, id, r)
      case InstallOpen(u) => u == urls && ShellInstalled(h, id)
      case _ => false
    else
      || (exists m :: m in h && InstallFails(m, id))
      || (ShellInstalled(h, id) && exists m :: m in h && StartsPrecaching(m, id, urls))
  }

  lemma InstallSnoc(h: seq<Moment>, n: Moment, id: nat)
    ensures forall r: Response :: Fetched(h, id, r) ==> Fetched(h + [n], id, r)
    ensures ShellInstalled(h, id) ==> ShellInstalled(h + [n], id)
    ensures forall m :: m in h ==> m in h + [n]
    ensures n in h + [n]
  {
    assert forall m :: m in h ==> m in h + [n];
    forall r: Response | Fetched(h, id, r)
      ensures Fetched(h + [n], id, r)
    {
    }
    if ShellInstalled(h, id) {
      var r: Response :| Fetched(h, id, r) && WasKept(h, id, Shell, "/index.html", r);
      assert WasKept(h + [n], id, Shell, "/index.html", r);
    }
  }

  lemma InstallFetchOwn(h: seq<Moment>, w: Worker, e: Event, id: nat, urls: seq<Url>)
    requires Concerns(e, id) && id in w.tasks && w.tasks[id] == InstallFetch(urls) && id < w.nextTask
    ensures InstallTold(h + [Moment(w, e)], Step(w, e), id, urls)
  {
    var n := Moment(w, e);
    assert n in h + [n] && Own(n, id);
    if e.Network? && e.response.Some? {
      assert Fetched(h + [n], id, e.response.value);
    }
    hide Fetched, ShellInstalled;
  }

  lemma InstallStoreOwn(h: seq<Moment>, w: Worker, e: Event, id: nat, urls: seq<Url>)
    requires Concerns(e, id) && InstallTold(h, w, id, urls) && id in w.tasks && w.tasks[id].InstallStore?
    ensures InstallTold(h + [Moment(w, e)], Step(w, e), id, urls)
  {
    var n, r := Moment(w, e), w.tasks[id].response;
    InstallSnoc(h, n, id);
    if e.Advance? {
      ContentsPut(w.storage, Shell, SHELL_URL, r, Shell);
      hide Put, Contents;
      assert Kept(n, id, Shell, "/index.html", r);
      assert WasKept(h + [n], id, Shell, "/index.html", r);
    }
    hide Fetched, WasKept, Put, Open, Kept, InstallFails;
    if e.Reject? {
      assert InstallFails(n, id);
    }
  }

  lemma InstallOpenOwn(h: seq<Moment>, w: Worker, e: Event, id: nat, urls: seq<Url>)
    requires Numbered(w) && Concerns(e, id) && InstallTold(h, w, id, urls) && id in w.tasks && w.tasks[id].InstallOpen?
    ensures InstallTold(h + [Moment(w, e)], Step(w, e), id, urls)
  {
    var n := Moment(w, e);
    InstallSnoc(h, n, id);
    hide Fetched, ShellInstalled, Open, SpawnAll, Precaching;
    if e.Advance? {
      SpawnAllFrame(End(Keep(w, Open(w.storage, Assets)), id), Precaching(urls));
      assert StartsPrecaching(n, id, urls);
    } else if e.Reject? {
      assert InstallFails(n, id);
    }
  }

  lemma InstallOwn(h: seq<Moment>, w: Worker, e: Event, id: nat, urls: seq<Url>)
    requires Numbered(w) && Concerns(e, id) && InstallTold(h, w, id, urls) && id in w.tasks
    ensures InstallTold(h + [Moment(w, e)], Step(w, e), id, urls)
  {
    if w.tasks[id].InstallFetch? {
      InstallFetchOwn(h, w, e, id, urls);
    } else if w.tasks[id].InstallStore? {
      InstallStoreOwn(h, w, e, id, urls);
    } else {
      InstallOpenOwn(h, w, e, id, urls);
    }
  }

  /** The task of handler `id` is left alone by the step. */
  ghost predicate Untouched(w: Worker, t: Worker, id: nat) {
    id < t.nextTask && (id in t.tasks <==> id in w.tasks) && (id in w.tasks ==> t.tasks[id] == w.tasks[id])
  }

  lemma OtherUntouched(w: Worker, e: Event, id: nat)
    requires Numbered(w) && id < w.nextTask && !(Concerns(e, id) && id in w.tasks)
    ensures Untouched(w, Step(w, e), id)
  {
    hide OnNetwork, OnAdvance, OnReject, IsImmutable;
    if e.Fetch? || e.Install? || e.Activation? {
    } else {
      StepFrame(w, e);
    }
  }

  lemma InstallOther(h: seq<Moment>, w: Worker, t: Worker, n: Moment, id: nat, urls: seq<Url>)
    requires InstallTold(h, w, id, urls) && Untouched(w, t, id)
    ensures InstallTold(h + [n], t, id, urls)
  {
    InstallSnoc(h, n, id);
    hide Fetched, ShellInstalled, InstallFails;
  }

  lemma {:induction false} RunInstalls(older: seq<map<Url, Response>>, events: seq<Event>, k: nat)
    requires k < |events| && events[k].Install?
    ensures InstallTold(History(older, events), Run(older, events), Run(older, events[..k]).nextTask, events[k].urls)
    decreases |events|
  {
    hide Step, InstallTold, Concerns;
    var n := |events| - 1;
    var front, id := events[..n], Run(older, events[..k]).nextTask;
    var h, w := History(older, front), Run(older, front);
    if k == n {
      InstallBegins(h, w, events[n].urls);
    } else {
      assert front[..k] == events[..k];
      RunInstalls(older, front, k);
      RunNumbered(older, front);
      if Concerns(events[n], id) && id in w.tasks {
        InstallOwn(h, w, events[n], id, events[k].urls);
      } else {
        assert id < w.nextTask by { InstallCounted(h, w, id, events[k].urls); }
        OtherUntouched(w, events[n], id);
        InstallOther(h, w, Step(w, events[n]), Moment(w, events[n]), id, events[k].urls);
      }
    }
  }

  lemma InstallBegins(h: seq<Moment>, w: Worker, urls: seq<Url>)
    ensures InstallTold(h + [Moment(w, Install(urls))], Step(w, Install(urls)), w.nextTask, urls)
  {
  }

  lemma InstallCounted(h: seq<Moment>, w: Worker, id: nat, urls: seq<Url>)
    requires InstallTold(h, w, id, urls)
    ensures id < w.nextTask
  {
  }

  // ----- precaching -----

  /** The URL is passed over: not fetched, not to be kept, or its write was rejected. */
  predicate PrecacheSkips(m: Moment, id: nat) {
    Own(m, id) &&
    match m.before.tasks[id]
    case PrecacheFetch(_) =>
      m.event.Network? && (m.event.response == None || !m.event.response.value.ok || !m.event.response.value.basic
                           || m.event.response.value.html)
    case PrecacheStore(_, _) => m.event.Reject?
    case _ => false
  }

  /** What the network answered for the URL has been put into the asset cache. */
  ghost predicate Precached(h: seq<Moment>, id: nat, url: Url) {
    exists r: Response :: Fetched(h, id, r) && WasKept(h, id, Assets, url, r)
  }

  ghost predicate PrecacheTold(h: seq<Moment>, w: Worker, id: nat, url: Url) {
    id < w.nextTask &&
    if id in w.tasks then
      match w.tasks[id]
      case PrecacheFetch(u) => u == url
      case PrecacheStore(u, r) => u == url && Fetched(h, id, r)
      case _ => false
    else (exists m :: m in h && PrecacheSkips(m, id)) || Precached(h, id, url)
  }

  lemma PrecacheOwn(h: seq<Moment>, w: Worker, e: Event, id: nat, url: Url)
    requires Concerns(e, id) && PrecacheTold(h, w, id, url) && id in w.tasks
    ensures PrecacheTold(h + [Moment(w, e)], Step(w, e), id, url)
  {
    var n := Moment(w, e);
    InstallSnoc(h, n, id);
    if w.tasks[id].PrecacheFetch? && e.Network? && e.response.Some? {
      assert Fetched(h + [n], id, e.response.value);
    }
    if w.tasks[id].PrecacheStore? && e.Advance? {
      var r := w.tasks[id].response;
      ContentsPut(w.storage, Assets, url, r, Assets);
      hide Put, Contents;
      assert Kept(n, id, Assets, url, r);
      assert WasKept(h + [n], id, Assets, url, r);
      assert Precached(h + [n], id, url);
    }
    hide Fetched, WasKept, Precached, Put, Open, Kept;
  }

  lemma PrecacheOther(h: seq<Moment>, w: Worker, t: Worker, n: Moment, id: nat, url: Url)
    requires PrecacheTold(h, w, id, url) && Untouched(w, t, id)
    ensures PrecacheTold(h + [n], t, id, url)
  {
    InstallSnoc(h, n, id);
    if Precached(h, id, url) {
      var r: Response :| Fetched(h, id, r) && WasKept(h, id, Assets, url, r);
      assert WasKept(h + [n], id, Assets, url, r);
    }
    hide Fetched, WasKept, PrecacheSkips;
  }

  lemma PrecacheBegins(h: seq<Moment>, w: Worker, e: Event, id: nat, urls: seq<Url>, i: nat)
    requires Numbered(w) && StartsPrecaching(Moment(w, e), id, urls) && i < |urls|
    ensures PrecacheTold(h + [Moment(w, e)], Step(w, e), w.nextTask + i, urls[i])
  {
    hide Open, SpawnAll, Precaching;
    SpawnAllFrame(End(Keep(w, Open(w.storage, Assets)), id), Precaching(urls));
    PrecachingAt(urls);
  }

  lemma {:induction false} RunPrecaches(older: seq<map<Url, Response>>, events: seq<Event>, k: nat, id: nat,
                                        urls: seq<Url>, i: nat)
    requires k < |events| && StartsPrecaching(Moment(Run(older, events[..k]), events[k]), id, urls) && i < |urls|
    ensures PrecacheTold(History(older, events), Run(older, events), Run(older, events[..k]).nextTask + i, urls[i])
    decreases |events|
  {
    hide Step, PrecacheTold, Concerns, StartsPrecaching;
    var n := |events| - 1;
    var front, j := events[..n], Run(older, events[..k]).nextTask + i;
    var h, w := History(older, front), Run(older, front);
    RunNumbered(older, front);
    if k == n {
      PrecacheBegins(h, w, events[n], id, urls, i);
    } else {
      assert front[..k] == events[..k];
      RunPrecaches(older, front, k, id, urls, i);
      if Concerns(events[n], j) && j in w.tasks {
        PrecacheOwn(h, w, events[n], j, urls[i]);
      } else {
        assert j < w.nextTask by { PrecacheCounted(h, w, j, urls[i]); }
        OtherUntouched(w, events[n], j);
        PrecacheOther(h, w, Step(w, events[n]), Moment(w, events[n]), j, urls[i]);
      }
    }
  }

  lemma PrecacheCounted(h: seq<Moment>, w: Worker, id: nat, url: Url)
    requires PrecacheTold(h, w, id, url)
    ensures id < w.nextTask
  {
  }

  /**
   An install, in any run: it is pending; or its page could not be fetched or kept; or it has put
   the page it fetched into the shell cache and started precaching exactly its URLs.
   */
  lemma InstallExactly(older: seq<map<Url, Response>>, events: seq<Event>, k: nat)
    requires k < |events| && events[k].Install?
    ensures var h, w, id := History(older, events), Run(older, events), Run(older, events[..k]).nextTask;
            || id in w.tasks
            || (exists m :: m in h && InstallFails(m, id))
            || (ShellInstalled(h, id) && exists m :: m in h && StartsPrecaching(m, id, events[k].urls))
  {
    RunInstalls(older, events, k);
    hide Run, InstallFails, ShellInstalled, StartsPrecaching;
  }

  /**
   Once an install has started precaching, each of its URLs has a handler of its own: it is pending;
   or the URL was passed over; or what the network answered has been put into the asset cache.
   */
  lemma PrecacheExactly(older: seq<map<Url, Response>>, events: seq<Event>, k: nat, id: nat, urls: seq<Url>, i: nat)
    requires k < |events| && StartsPrecaching(Moment(Run(older, events[..k]), events[k]), id, urls) && i < |urls|
    ensures var h, w, j := History(older, events), Run(older, events), Run(older, events[..k]).nextTask + i;
            || j in w.tasks
            || (exists m :: m in h && PrecacheSkips(m, j))
            || Precached(h, j, urls[i])
  {
    RunPrecaches(older, events, k, id, urls, i);
    hide Run, PrecacheSkips, Precached;
  }

  // ----- activating -----

  function Names(s: Storage): set<Name> {
    if s == [] then {} else {s[0].name} + Names(s[1..])
  }

  /** No two caches have one name. */
  predicate Distinct(s: Storage) {
    s == [] || (s[0].name !in Names(s[1..]) && Distinct(s[1..]))
  }

  lemma {:induction false} NamesExactly(s: Storage)
    ensures forall n :: n in Names(s) <==> exists c :: c in s && c.name == n
  {
    if s != [] {
      NamesExactly(s[1..]);
      assert forall c :: c in s <==> c == s[0] || c in s[1..];
    }
  }

  lemma {:induction false} PutNames(s: Storage, name: Name, url: Url, r: Response)
    ensures Names(Put(s, name, url, r)) == Names(s) + {name}
    ensures Names(Open(s, name)) == Names(s) + {name}
    ensures Names(Evict(s, name, url)) == Names(s) + {name}
    ensures Distinct(s) ==> Distinct(Put(s, name, url, r)) && Distinct(Open(s, name)) && Distinct(Evict(s, name, url))
  {
    if s != [] && s[0].name != name {
      PutNames(s[1..], name, url, r);
    }
  }

  lemma {:induction false} DropNames(s: Storage, name: Name)
    requires Distinct(s)
    ensures Distinct(Drop(s, name)) && Names(Drop(s, name)) == Names(s) - {name}
  {
    if s != [] && s[0].name != name {
      DropNames(s[1..], name);
    }
  }

  /** A cache of an earlier version is about to be dropped, or a deletion of it was rejected. */
  ghost predicate DropTold(h: seq<Moment>, w: Worker, name: Name) {
    || (exists id :: id in w.tasks && w.tasks[id] == DropCache(name))
    || (exists m, id :: m in h && Own(m, id) && m.event.Reject? && m.before.tasks[id] == DropCache(name))
  }

  /** Every cache of an earlier version that is still there is accounted for. */
  ghost predicate AllDropped(h: seq<Moment>, w: Worker) {
    forall name: Name :: name.Old? && name in Names(w.storage) ==> DropTold(h, w, name)
  }

  /** The storage only gains current caches, and loses one only by its own deletion. */
  ghost predicate NamesStep(w: Worker, t: Worker, e: Event) {
    && Distinct(t.storage)
    && (forall n: Name :: n.Old? && n in Names(t.storage) ==> n in Names(w.storage))
    && (forall n: Name :: n in Names(w.storage) && n !in Names(t.storage) ==>
          e.Advance? && e.task in w.tasks && w.tasks[e.task] == DropCache(n))
    && (e.Advance? && e.task in w.tasks && w.tasks[e.task].DropCache? ==> w.tasks[e.task].name !in Names(t.storage))
  }

  lemma AdvanceNames(w: Worker, id: nat)
    requires Distinct(w.storage) && Numbered(w) && id in w.tasks
    ensures NamesStep(w, OnAdvance(w, id), Advance(id))
  {
    var s := w.storage;
    hide Open, Put, Evict, Drop, Names, Distinct, SpawnAll, Precaching, Dropping, Find;
    match w.tasks[id]
    case NavigationStore(_, r) => PutNames(s, Shell, SHELL_URL, r);
    case AssetDelete(url) => PutNames(s, Assets, url, Response(false, false, false, ""));
    case AssetStore(url, r) => PutNames(s, Assets, url, r);
    case OtherStore(url, r) => PutNames(s, Assets, url, r);
    case PrecacheStore(url, r) => PutNames(s, Assets, url, r);
    case InstallStore(_, r) => PutNames(s, Shell, SHELL_URL, r);
    case InstallOpen(urls) =>
      PutNames(s, Assets, "", Response(false, false, false, ""));
      SpawnAllFrame(End(Keep(w, Open(s, Assets)), id), Precaching(urls));
    case Activate => SpawnAllFrame(End(w, id), Dropping(s));
    case DropCache(name) => DropNames(s, name);
    case _ =>
  }

  lemma OpenedNames(w: Worker, name: Name, created: bool)
    requires Distinct(w.storage)
    ensures var s := Opened(w, name, created).storage;
            Distinct(s) && Names(w.storage) <= Names(s) <= Names(w.storage) + {name}
  {
    PutNames(w.storage, name, "", Response(false, false, false, ""));
    hide Open, Names, Distinct;
  }

  lemma RejectNames(w: Worker, id: nat, created: bool)
    requires Distinct(w.storage) && id in w.tasks
    ensures NamesStep(w, OnReject(w, id, created), Reject(id, created))
  {
    OpenedNames(w, Shell, created);
    OpenedNames(w, Assets, created);
    hide Opened, Names, Distinct;
  }

  lemma NetworkNames(w: Worker, id: nat, response: Option<Response>)
    requires Distinct(w.storage) && id in w.tasks
    ensures NamesStep(w, OnNetwork(w, id, response), Network(id, response))
  {
    hide Names, Distinct;
  }

  lemma StepNames(w: Worker, e: Event)
    requires Distinct(w.storage) && Numbered(w)
    ensures NamesStep(w, Step(w, e), e)
  {
    hide OnNetwork, OnAdvance, OnReject, Names, Distinct, Numbered, IsImmutable;
    if (e.Network? || e.Advance? || e.Reject?) && e.task in w.tasks {
      match e
      case Network(id, response) => NetworkNames(w, id, response);
      case Advance(id) => AdvanceNames(w, id);
      case Reject(id, created) => RejectNames(w, id, created);
    }
  }

  lemma DropKept(h: seq<Moment>, w: Worker, e: Event, name: Name)
    requires Numbered(w) && DropTold(h, w, name) && !e.Fetch? && !e.Install? && !e.Activation?
    requires !(e.Advance? && e.task in w.tasks && w.tasks[e.task] == DropCache(name))
    ensures DropTold(h + [Moment(w, e)], Step(w, e), name)
  {
    StepFrame(w, e);
    var n := Moment(w, e);
    if id :| id in w.tasks && w.tasks[id] == DropCache(name) {
      if Concerns(e, id) {
        if e.Reject? {
          assert n in h + [n] && Own(n, id);
        } else {
          assert Step(w, e).tasks == w.tasks;
        }
      } else {
        hide Step;
        assert id in Step(w, e).tasks;
      }
    } else {
      var m, id :| m in h && Own(m, id) && m.event.Reject? && m.before.tasks[id] == DropCache(name);
      assert m in h + [n];
    }
  }

  lemma DropKeptByCall(h: seq<Moment>, w: Worker, e: Event, name: Name)
    requires Numbered(w) && DropTold(h, w, name) && (e.Fetch? || e.Install? || e.Activation?)
    ensures DropTold(h + [Moment(w, e)], Step(w, e), name)
  {
    var n := Moment(w, e);
    if id :| id in w.tasks && w.tasks[id] == DropCache(name) {
      assert id in Step(w, e).tasks;
    } else {
      var m, id :| m in h && Own(m, id) && m.event.Reject? && m.before.tasks[id] == DropCache(name);
      assert m in h + [n];
    }
  }

  lemma StepDrops(h: seq<Moment>, w: Worker, e: Event)
    requires Numbered(w) && Distinct(w.storage) && AllDropped(h, w)
    ensures AllDropped(h + [Moment(w, e)], Step(w, e))
  {
    StepNames(w, e);
    hide Step, DropTold, Names, Numbered;
    forall name: Name | name.Old? && name in Names(Step(w, e).storage)
      ensures DropTold(h + [Moment(w, e)], Step(w, e), name)
    {
      if e.Fetch? || e.Install? || e.Activation? {
        DropKeptByCall(h, w, e, name);
      } else {
        DropKept(h, w, e, name);
      }
    }
  }

  lemma {:induction false} DroppingAll(s: Storage)
    ensures forall name: Name :: name.Old? && name in Names(s) ==> DropCache(name) in Dropping(s)
  {
    if s != [] {
      DroppingAll(s[1..]);
    }
  }

  /** The activation's filter: a deletion is started for every cache of an earlier version. */
  lemma ActivationDrops(h: seq<Moment>, w: Worker, id: nat)
    requires Numbered(w) && id in w.tasks && w.tasks[id].Activate?
    ensures AllDropped(h + [Moment(w, Advance(id))], Step(w, Advance(id)))
  {
    hide SpawnAll, Dropping, Names;
    var ts := Dropping(w.storage);
    var t := Step(w, Advance(id));
    SpawnAllFrame(End(w, id), ts);
    DroppingAll(w.storage);
    forall name: Name | name.Old? && name in Names(t.storage)
      ensures DropTold(h + [Moment(w, Advance(id))], t, name)
    {
      var i :| 0 <= i < |ts| && ts[i] == DropCache(name);
      assert w.nextTask + i in t.tasks && t.tasks[w.nextTask + i] == ts[i + w.nextTask - w.nextTask];
    }
  }

  lemma {:induction false} OlderDistinct(older: seq<map<Url, Response>>, i: nat)
    requires i <= |older|
    ensures Distinct(Fresh(older).storage[i..])
    ensures forall n: Name :: n in Names(Fresh(older).storage[i..]) ==> n.Old? && i <= n.version
    decreases |older| - i
  {
    var s := Fresh(older).storage;
    if i < |older| {
      OlderDistinct(older, i + 1);
      assert s[i..][1..] == s[i + 1..];
    }
  }

  lemma {:induction false} RunDistinct(older: seq<map<Url, Response>>, events: seq<Event>)
    ensures Distinct(Run(older, events).storage)
  {
    hide Step, Distinct;
    if events == [] {
      OlderDistinct(older, 0);
      assert Fresh(older).storage[0..] == Fresh(older).storage;
    } else {
      var front := events[..|events| - 1];
      RunDistinct(older, front);
      RunNumbered(older, front);
      StepNames(Run(older, front), events[|events| - 1]);
    }
  }

  lemma {:induction false} RunDrops(older: seq<map<Url, Response>>, events: seq<Event>, k: nat)
    requires k < |events| && events[k].Advance?
    requires var w := Run(older, events[..k]); events[k].task in w.tasks && w.tasks[events[k].task].Activate?
    ensures AllDropped(History(older, events), Run(older, events))
    decreases |events|
  {
    hide Step, AllDropped, Distinct;
    var n := |events| - 1;
    var front := events[..n];
    RunNumbered(older, front);
    if k == n {
      ActivationDrops(History(older, front), Run(older, front), events[n].task);
    } else {
      assert front[..k] == events[..k];
      RunDrops(older, front, k);
      RunDistinct(older, front);
      StepDrops(History(older, front), Run(older, front), events[n]);
    }
  }

  /**
   Once any activation has listed the caches, every cache of an earlier version is gone for good,
   has its own deletion pending, or had one rejected.
   */
  lemma EarlierCachesGo(older: seq<map<Url, Response>>, events: seq<Event>, k: nat, c: Cache)
    requires k < |events| && events[k].Advance?
    requires var w := Run(older, events[..k]); events[k].task in w.tasks && w.tasks[events[k].task].Activate?
    requires c in Run(older, events).storage && c.name.Old?
    ensures var h, w := History(older, events), Run(older, events);
            || (exists id :: id in w.tasks && w.tasks[id] == DropCache(c.name))
            || (exists m, id :: m in h && Own(m, id) && m.event.Reject? && m.before.tasks[id] == DropCache(c.name))
  {
    hide Run;
    RunDrops(older, events, k);
    NamesExactly(Run(older, events).storage);
    assert DropTold(History(older, events), Run(older, events), c.name);
  }

  /** A current cache, once created, is never deleted. */
  lemma {:induction false} CurrentCachesStay(older: seq<map<Url, Response>>, events: seq<Event>, k: nat, name: Name)
    requires k <= |events| && !name.Old? && name in Names(Run(older, events[..k]).storage)
    ensures name in Names(Run(older, events).storage)
    decreases |events|
  {
    hide Step, Names, Distinct;
    if k == |events| {
      assert events[..k] == events;
    } else {
      var front, e := events[..|events| - 1], events[|events| - 1];
      assert front[..k] == events[..k];
      CurrentCachesStay(older, front, k, name);
      RunDistinct(older, front);
      RunNumbered(older, front);
      StepNames(Run(older, front), e);
      AnyRulesObeyed(older, front);
      RunKeeps(AnyRules(older), older, front);
      hide Run, ObeyingRun, Inv;
      if e.Advance? && e.task in Run(older, front).tasks {
        TaskIsGood(AnyRules(older), Run(older, front), e.task);
      }
    }
  }
}
