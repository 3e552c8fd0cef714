/**
 What becomes of each request: over every interleaving of the service worker's handlers, which
 answer a request gets, where the answer comes from, and when there is none; and what installs
 and activations achieve.
 */
module CacheReplies {
  import opened Collections
  import opened CacheWorker

  /** One step of a run: the worker before it, and the event. */
  datatype Moment = Moment(before: Worker, event: Event)

  ghost function History(older: seq<map<Url, Response>>, events: seq<Event>): seq<Moment> {
    if events == [] then []
    else
      var front := events[..|events| - 1];
      History(older, front) + [Moment(Run(older, front), events[|events| - 1])]
  }

  lemma {:induction false} HistoryPrefix(older: seq<map<Url, Response>>, events: seq<Event>, k: nat)
    requires k <= |events|
    ensures |History(older, events)| == |events|
    ensures History(older, events[..k]) == History(older, events)[..k]
  {
    hide Run;
    if k == |events| {
      assert events[..k] == events;
      if events != [] {
        HistoryPrefix(older, events[..|events| - 1], 0);
      }
    } else {
      var front := events[..|events| - 1];
      assert front[..k] == events[..k];
      HistoryPrefix(older, front, k);
    }
  }

  // ----- the cache storage -----

  /** The first cache, in order of creation, that holds the URL holds this response under it. */
  ghost predicate FirstHolds(s: Storage, url: Url, r: Response) {
    exists i :: 0 <= i < |s| && url in s[i].entries && s[i].entries[url] == r
                && forall j :: 0 <= j < i ==> url !in s[j].entries
  }

  ghost predicate NoneHolds(s: Storage, url: Url) {
    forall i :: 0 <= i < |s| ==> url !in s[i].entries
  }

  lemma {:induction false} FindExactly(s: Storage, url: Url)
    ensures Find(s, url).None? <==> NoneHolds(s, url)
    ensures forall r :: FirstHolds(s, url, r) <==> Find(s, url) == Some(r)
  {
    if s != [] {
      FindExactly(s[1..], url);
      if url !in s[0].entries {
        forall r
          ensures FirstHolds(s, url, r) <==> FirstHolds(s[1..], url, r)
        {
          LaterHolds(s, url, r);
        }
        assert NoneHolds(s, url) <==> NoneHolds(s[1..], url) by {
          assert forall i :: 0 < i < |s| ==> s[i] == s[1..][i - 1];
        }
      } else {
        assert FirstHolds(s, url, s[0].entries[url]);
      }
    }
  }

  lemma LaterHolds(s: Storage, url: Url, r: Response)
    requires s != [] && url !in s[0].entries
    ensures FirstHolds(s, url, r) <==> FirstHolds(s[1..], url, r)
  {
    if i :| 0 <= i < |s| && url in s[i].entries && s[i].entries[url] == r
            && forall j :: 0 <= j < i ==> url !in s[j].entries {
      assert s[1..][i - 1] == s[i];
      assert forall j :: 0 <= j < i - 1 ==> s[1..][j] == s[j + 1];
    }
    if i :| 0 <= i < |s[1..]| && url in s[1..][i].entries && s[1..][i].entries[url] == r
            && forall j :: 0 <= j < i ==> url !in s[1..][j].entries {
      assert s[i + 1] == s[1..][i];
      assert forall j :: 0 < j < i + 1 ==> s[j] == s[1..][j - 1];
    }
  }

  // ----- one step -----

  /** The event is a step of handler `id`. */
  predicate Concerns(e: Event, id: nat) {
    (e.Network? || e.Advance? || e.Reject?) && e.task == id
  }

  predicate Own(m: Moment, id: nat) {
    Concerns(m.event, id) && id in m.before.tasks
  }

  /** Handlers are numbered in order, and none is pending once it has answered. */
  ghost predicate Numbered(w: Worker) {
    && (forall id :: id in w.tasks ==> id < w.nextTask)
    && (forall r :: r in w.replies ==> r.task < w.nextTask && r.task !in w.tasks)
    && (forall i, j :: 0 <= i < j < |w.replies| ==> w.replies[i].task != w.replies[j].task)
  }

  /** A task that another one starts. */
  predicate IsBackground(t: Task) {
    t.PrecacheFetch? || t.DropCache?
  }

  /** What a step leaves alone: tasks it does not concern, and replies given before. */
  ghost predicate Framed(w: Worker, t: Worker, e: Event) {
    && w.nextTask <= t.nextTask
    && (forall j :: j in w.tasks && !Concerns(e, j) ==> j in t.tasks && t.tasks[j] == w.tasks[j])
    && (forall j :: j in t.tasks && j !in w.tasks ==> w.nextTask <= j < t.nextTask && IsBackground(t.tasks[j]))
    && (t.replies == w.replies
        || exists r :: t.replies == w.replies + [r] && Concerns(e, r.task) && r.task in w.tasks && r.task !in t.tasks)
  }

  lemma {:induction false} SpawnAllFrame(w: Worker, ts: seq<Task>)
    requires forall id :: id in w.tasks ==> id < w.nextTask
    ensures var t := SpawnAll(w, ts);
            && t.nextTask == w.nextTask + |ts| && t.replies == w.replies && t.storage == w.storage
            && (forall id :: id in w.tasks ==> id in t.tasks && t.tasks[id] == w.tasks[id])
            && (forall id :: id in t.tasks && id !in w.tasks ==> w.nextTask <= id < w.nextTask + |ts|)
            && (forall id :: w.nextTask <= id < w.nextTask + |ts| ==>
                  id in t.tasks && t.tasks[id] == ts[id - w.nextTask])
    decreases |ts|
  {
    if ts != [] {
      SpawnAllFrame(Spawn(w, ts[0]), ts[1..]);
    }
  }

  lemma NetworkFrame(w: Worker, id: nat, response: Option<Response>)
    requires id in w.tasks
    ensures Framed(w, OnNetwork(w, id, response), Network(id, response))
  {
  }

  lemma RejectFrame(w: Worker, id: nat, created: bool)
    requires id in w.tasks
    ensures Framed(w, OnReject(w, id, created), Reject(id, created))
  {
    hide Open;
  }

  lemma {:induction false} PrecachingAt(urls: seq<Url>)
    ensures |Precaching(urls)| == |urls|
    ensures forall i :: 0 <= i < |urls| ==> Precaching(urls)[i] == PrecacheFetch(urls[i])
  {
    if urls != [] {
      PrecachingAt(urls[1..]);
    }
  }

  lemma SpawningFrame(w: Worker, id: nat)
    requires id in w.tasks && Numbered(w) && (w.tasks[id].InstallOpen? || w.tasks[id].Activate?)
    ensures Framed(w, OnAdvance(w, id), Advance(id))
  {
    hide Open, SpawnAll, Precaching, Dropping;
    match w.tasks[id]
    case InstallOpen(urls) =>
      SpawnAllFrame(End(Keep(w, Open(w.storage, Assets)), id), Precaching(urls));
      PrecachingAt(urls);
    case Activate =>
      SpawnAllFrame(End(w, id), Dropping(w.storage));
      DroppingGood(HtmlShell, w.storage);
  }

  /** At a lookup in the caches. */
  predicate IsLookup(t: Task) {
    t.NavigationFallback? || t.NavigationSecond? || t.AssetMatch? || t.OtherMatch?
  }

  lemma LookupFrame(w: Worker, id: nat)
    requires id in w.tasks && IsLookup(w.tasks[id])
    ensures Framed(w, OnAdvance(w, id), Advance(id))
  {
    hide Find;
  }

  lemma WriteFrame(w: Worker, id: nat)
    requires id in w.tasks && !IsLookup(w.tasks[id]) && !w.tasks[id].InstallOpen? && !w.tasks[id].Activate?
    ensures Framed(w, OnAdvance(w, id), Advance(id))
  {
    hide Put, Evict, Drop;
  }

  lemma AdvanceFrame(w: Worker, id: nat)
    requires id in w.tasks && Numbered(w)
    ensures Framed(w, OnAdvance(w, id), Advance(id))
  {
    hide OnAdvance, Numbered, Framed;
    if w.tasks[id].InstallOpen? || w.tasks[id].Activate? {
      SpawningFrame(w, id);
    } else if IsLookup(w.tasks[id]) {
      LookupFrame(w, id);
    } else {
      WriteFrame(w, id);
    }
  }

  lemma StepFrame(w: Worker, e: Event)
    requires Numbered(w) && !e.Fetch? && !e.Install? && !e.Activation?
    ensures Framed(w, Step(w, e), e)
  {
    hide OnNetwork, OnAdvance, OnReject, Numbered;
    match e
    case Network(id, response) =>
      if id in w.tasks {
        NetworkFrame(w, id, response);
      }
    case Advance(id) =>
      if id in w.tasks {
        AdvanceFrame(w, id);
      }
    case Reject(id, created) =>
      if id in w.tasks {
        RejectFrame(w, id, created);
      }
  }

  lemma CallNumbered(w: Worker, t: Task)
    requires Numbered(w)
    ensures Numbered(Spawn(w, t))
  {
  }

  lemma FramedNumbered(w: Worker, t: Worker, e: Event)
    requires Numbered(w) && Framed(w, t, e)
    ensures Numbered(t)
  {
  }

  lemma StepNumbered(w: Worker, e: Event)
    requires Numbered(w)
    ensures Numbered(Step(w, e))
  {
    hide OnNetwork, OnAdvance, OnReject, Numbered, Framed, Spawn;
    match e
    case Fetch(url, navigation) => CallNumbered(w, Start(url, navigation));
    case Install(urls) => CallNumbered(w, InstallFetch(urls));
    case Activation => CallNumbered(w, Activate);
    case _ =>
      StepFrame(w, e);
      FramedNumbered(w, Step(w, e), e);
  }

  lemma {:induction false} RunNumbered(older: seq<map<Url, Response>>, events: seq<Event>)
    ensures Numbered(Run(older, events))
  {
    hide Step;
    if events != [] {
      hide Numbered;
      RunNumbered(older, events[..|events| - 1]);
      StepNumbered(Run(older, events[..|events| - 1]), events[|events| - 1]);
    }
  }

  // ----- cache first -----

  /** Handler `id` looks its immutable URL up in the caches. */
  predicate LooksUp(m: Moment, id: nat) {
    m.event == Advance(id) && id in m.before.tasks && m.before.tasks[id].AssetMatch?
  }

  /** The lookup finds this response, and it is not HTML. */
  predicate Hits(m: Moment, id: nat, r: Response) {
    LooksUp(m, id) && Find(m.before.storage, m.before.tasks[id].url) == Some(r) && !r.html
  }

  predicate Misses(m: Moment, id: nat, url: Url) {
    LooksUp(m, id) && m.before.tasks[id].url == url && var found := Find(m.before.storage, url);
    found.None? || found.value.html
  }

  predicate IsPastLookup(t: Task) {
    t.AssetDelete? || t.AssetFetch? || t.AssetStore?
  }

  /** Handler `id` looks up once, is past that only after a miss, and has answered after a hit. */
  ghost predicate AssetTold(h: seq<Moment>, w: Worker, id: nat) {
    && (forall m :: m in h && LooksUp(m, id) ==> id < w.nextTask)
    && (forall m, n :: m in h && n in h && LooksUp(m, id) && LooksUp(n, id) ==> m == n)
    && (id in w.tasks && w.tasks[id].AssetMatch? ==> forall m :: m in h ==> !LooksUp(m, id))
    && (id in w.tasks && IsPastLookup(w.tasks[id]) ==> exists m :: m in h && Misses(m, id, w.tasks[id].url))
    && (forall m, r :: m in h && Hits(m, id, r) ==>
          id !in w.tasks && Reply(id, m.before.tasks[id].url, false, true, r) in w.replies)
  }

  /** A step of a handler that is at its lookup. */
  lemma LookupStep(w: Worker, e: Event, id: nat)
    requires Numbered(w) && Concerns(e, id) && id in w.tasks && w.tasks[id].AssetMatch?
    ensures var t, url, found := Step(w, e), w.tasks[id].url, Find(w.storage, w.tasks[id].url);
            if e == Advance(id) then
              if found.Some? && !found.value.html then
                id !in t.tasks && t.replies == w.replies + [Reply(id, url, false, true, found.value)]
              else
                id in t.tasks && IsPastLookup(t.tasks[id]) && t.tasks[id].url == url && t.replies == w.replies
            else (t == w || id !in t.tasks) && t.replies == w.replies
  {
    hide Find;
  }

  /** A step of a handler that has missed. */
  lemma PastLookupStep(w: Worker, e: Event, id: nat)
    requires Concerns(e, id) && id in w.tasks && IsPastLookup(w.tasks[id])
    ensures var t, url := Step(w, e), w.tasks[id].url;
            && (id in t.tasks ==> IsPastLookup(t.tasks[id]) && t.tasks[id].url == url)
            && (t.replies == w.replies || exists r :: t.replies == w.replies + [Reply(id, url, false, false, r)])
  {
    hide Find, Put, Evict, Open;
    var t := Step(w, e);
    if t.replies != w.replies {
      assert t.replies == w.replies + [Reply(id, w.tasks[id].url, false, false, t.replies[|w.replies|].response)];
    }
  }

  /** A step of any other handler never leads to a lookup. */
  lemma OtherKindStep(w: Worker, e: Event, id: nat)
    requires Numbered(w) && Concerns(e, id) && id in w.tasks
    requires !w.tasks[id].AssetMatch? && !IsPastLookup(w.tasks[id])
    ensures var t := Step(w, e); id in t.tasks ==> !t.tasks[id].AssetMatch? && !IsPastLookup(t.tasks[id])
  {
    hide Find, Put, Evict, Open, Drop, SpawnAll, Precaching, Dropping;
    if e.Advance? && w.tasks[id].InstallOpen? {
      SpawnAllFrame(End(Keep(w, Open(w.storage, Assets)), id), Precaching(w.tasks[id].urls));
    } else if e.Advance? && w.tasks[id].Activate? {
      SpawnAllFrame(End(w, id), Dropping(w.storage));
    }
  }

  lemma AssetOwn(h: seq<Moment>, w: Worker, e: Event, id: nat)
    requires Numbered(w) && AssetTold(h, w, id) && Concerns(e, id) && id in w.tasks
    ensures AssetTold(h + [Moment(w, e)], Step(w, e), id)
  {
    var n := Moment(w, e);
    hide Step, Find;
    StepFrame(w, e);
    if w.tasks[id].AssetMatch? {
      LookupStep(w, e, id);
      assert n in h + [n];
    } else if IsPastLookup(w.tasks[id]) {
      PastLookupStep(w, e, id);
      var m :| m in h && Misses(m, id, w.tasks[id].url);
      assert m in h + [n];
    } else {
      OtherKindStep(w, e, id);
    }
  }

  /** A step of another handler, or a new call. */
  lemma AssetOther(h: seq<Moment>, w: Worker, e: Event, id: nat)
    requires Numbered(w) && AssetTold(h, w, id) && !(Concerns(e, id) && id in w.tasks)
    ensures AssetTold(h + [Moment(w, e)], Step(w, e), id)
  {
    hide OnNetwork, OnAdvance, OnReject, Find, IsImmutable;
    if e.Fetch? || e.Install? || e.Activation? {
    } else {
      StepFrame(w, e);
    }
  }

  lemma {:induction false} RunAssets(older: seq<map<Url, Response>>, events: seq<Event>, id: nat)
    ensures AssetTold(History(older, events), Run(older, events), id)
  {
    hide Step;
    if events != [] {
      hide AssetTold;
      var front, e := events[..|events| - 1], events[|events| - 1];
      RunAssets(older, front, id);
      RunNumbered(older, front);
      if Concerns(e, id) && id in Run(older, front).tasks {
        AssetOwn(History(older, front), Run(older, front), e, id);
      } else {
        AssetOther(History(older, front), Run(older, front), e, id);
      }
    }
  }

  // ----- who asked -----

  /** The task that the handler of a request began as. */
  function Asked(t: Task): Option<Task> {
    match t
    case NavigationFetch(url) => Some(NavigationFetch(url))
    case NavigationStore(url, _) => Some(NavigationFetch(url))
    case NavigationFallback(url) => Some(NavigationFetch(url))
    case NavigationSecond(url) => Some(NavigationFetch(url))
    case AssetMatch(url) => Some(AssetMatch(url))
    case AssetDelete(url) => Some(AssetMatch(url))
    case AssetFetch(url) => Some(AssetMatch(url))
    case AssetStore(url, _) => Some(AssetMatch(url))
    case OtherFetch(url) => Some(OtherFetch(url))
    case OtherStore(url, _) => Some(OtherFetch(url))
    case OtherMatch(url) => Some(OtherFetch(url))
    case _ => None
  }

  /** The event is the request that handler `id` serves. */
  predicate Requests(m: Moment, id: nat) {
    m.event.Fetch? && m.before.nextTask == id
  }

  predicate IsFor(m: Moment, t: Task) {
    m.event.Fetch? && Asked(t) == Some(Start(m.event.url, m.event.navigation))
  }

  /** A pending handler serves the one request it was started for. */
  ghost predicate TaskServes(h: seq<Moment>, w: Worker, id: nat) {
    && (forall m :: m in h && Requests(m, id) ==> id < w.nextTask)
    && (forall m, n :: m in h && n in h && Requests(m, id) && Requests(n, id) ==> m == n)
    && (forall m :: m in h && Requests(m, id) && id in w.tasks ==> IsFor(m, w.tasks[id]))
    && (id in w.tasks && Asked(w.tasks[id]).Some? ==> exists m :: m in h && Requests(m, id))
  }

  /** The step adds an answer of handler `id`, to the request of the task. */
  ghost predicate AnswersFor(w: Worker, t: Worker, id: nat, task: Task) {
    Asked(task).Some? && exists cached, r ::
      t.replies == w.replies + [Reply(id, Asked(task).value.url, Asked(task).value.NavigationFetch?, cached, r)]
  }

  ghost predicate Serves(w: Worker, t: Worker, id: nat)
    requires id in w.tasks
  {
    && (id in t.tasks ==> Asked(t.tasks[id]) == Asked(w.tasks[id]))
    && (t.replies == w.replies || AnswersFor(w, t, id, w.tasks[id]))
  }

  lemma NetworkServes(w: Worker, id: nat, response: Option<Response>)
    requires id in w.tasks
    ensures Serves(w, OnNetwork(w, id, response), id)
  {
    var t := OnNetwork(w, id, response);
    if t.replies != w.replies {
      var asked := Asked(w.tasks[id]).value;
      assert t.replies == w.replies + [Reply(id, asked.url, asked.NavigationFetch?, false, response.value)];
    }
  }

  lemma RejectServes(w: Worker, id: nat, created: bool)
    requires id in w.tasks
    ensures Serves(w, OnReject(w, id, created), id)
  {
    hide Open, AnswersFor;
  }

  lemma AdvanceServes(w: Worker, id: nat)
    requires Numbered(w) && id in w.tasks
    ensures Serves(w, OnAdvance(w, id), id)
  {
    hide Find, Put, Evict, Open, Drop, SpawnAll, Precaching, Dropping;
    var t := OnAdvance(w, id);
    if w.tasks[id].InstallOpen? {
      SpawnAllFrame(End(Keep(w, Open(w.storage, Assets)), id), Precaching(w.tasks[id].urls));
    } else if w.tasks[id].Activate? {
      SpawnAllFrame(End(w, id), Dropping(w.storage));
    } else if t.replies != w.replies {
      var r, asked := t.replies[|w.replies|], Asked(w.tasks[id]).value;
      assert t.replies == w.replies + [Reply(id, asked.url, asked.NavigationFetch?, r.cached, r.response)];
    }
  }

  /** A handler keeps serving its request, and what it answers is for that request. */
  lemma ServingStep(w: Worker, e: Event, id: nat)
    requires Numbered(w) && Concerns(e, id) && id in w.tasks
    ensures Serves(w, Step(w, e), id)
  {
    hide OnNetwork, OnAdvance, OnReject, Serves, Numbered;
    match e
    case Network(_, response) => NetworkServes(w, id, response);
    case Advance(_) => AdvanceServes(w, id);
    case Reject(_, created) => RejectServes(w, id, created);
  }

  lemma ServesOwn(h: seq<Moment>, w: Worker, e: Event, id: nat)
    requires Numbered(w) && TaskServes(h, w, id) && Concerns(e, id) && id in w.tasks
    ensures TaskServes(h + [Moment(w, e)], Step(w, e), id)
  {
    hide Step, Asked, IsImmutable;
    ServingStep(w, e, id);
    StepFrame(w, e);
    if Asked(w.tasks[id]).Some? {
      var m :| m in h && Requests(m, id);
      assert m in h + [Moment(w, e)];
    }
  }

  lemma ServesOther(h: seq<Moment>, w: Worker, e: Event, id: nat)
    requires Numbered(w) && TaskServes(h, w, id) && !(Concerns(e, id) && id in w.tasks)
    ensures TaskServes(h + [Moment(w, e)], Step(w, e), id)
  {
    hide OnNetwork, OnAdvance, OnReject, IsImmutable;
    var n := Moment(w, e);
    if id in w.tasks && Asked(w.tasks[id]).Some? {
      var m :| m in h && Requests(m, id);
      assert m in h + [n];
    }
    if e.Fetch? || e.Install? || e.Activation? {
      assert n in h + [n];
    } else {
      StepFrame(w, e);
    }
  }

  lemma {:induction false} RunServes(older: seq<map<Url, Response>>, events: seq<Event>, id: nat)
    ensures TaskServes(History(older, events), Run(older, events), id)
  {
    hide Step;
    if events != [] {
      hide TaskServes;
      var front, e := events[..|events| - 1], events[|events| - 1];
      RunServes(older, front, id);
      RunNumbered(older, front);
      if Concerns(e, id) && id in Run(older, front).tasks {
        ServesOwn(History(older, front), Run(older, front), e, id);
      } else {
        ServesOther(History(older, front), Run(older, front), e, id);
      }
    }
  }

  lemma {:induction false} RunServesReplies(older: seq<map<Url, Response>>, events: seq<Event>, r: Reply)
    requires r in Run(older, events).replies
    ensures exists m :: m in History(older, events) && Requests(m, r.task) && m.event == Fetch(r.url, r.navigation)
  {
    var front, e := events[..|events| - 1], events[|events| - 1];
    var w := Run(older, front);
    hide Step, Run;
    assert Run(older, events) == Step(w, e) by { RunLast(older, events); }
    if r in w.replies {
      RunServesReplies(older, front, r);
    } else {
      RunNumbered(older, front);
      assert !e.Fetch? && !e.Install? && !e.Activation? by { CallsAnswerNothing(w, e); }
      StepFrame(w, e);
      ServingStep(w, e, r.task);
      RunServes(older, front, r.task);
      AskedAs(History(older, front), w, r.task, r);
    }
  }

  lemma RunLast(older: seq<map<Url, Response>>, events: seq<Event>)
    requires events != []
    ensures Run(older, events) == Step(Run(older, events[..|events| - 1]), events[|events| - 1])
  {
    hide Step;
  }

  lemma CallsAnswerNothing(w: Worker, e: Event)
    ensures e.Fetch? || e.Install? || e.Activation? ==> Step(w, e).replies == w.replies
  {
  }

  lemma AskedAs(h: seq<Moment>, w: Worker, id: nat, r: Reply)
    requires TaskServes(h, w, id) && id in w.tasks && Asked(w.tasks[id]).Some?
    requires var asked := Asked(w.tasks[id]).value; r.url == asked.url && r.navigation == asked.NavigationFetch?
    ensures exists m :: m in h && Requests(m, id) && m.event == Fetch(r.url, r.navigation)
  {
    var m :| m in h && Requests(m, id);
    assert IsFor(m, w.tasks[id]);
    hide IsImmutable;
  }

  // ----- answered once, or given up -----

  /** Handler `id` ends without an answer: no cache holds one, or its request or a cache operation failed. */
  ghost predicate GivesUp(m: Moment, id: nat) {
    Own(m, id) &&
    match m.before.tasks[id]
    case AssetMatch(_) => m.event.Reject?
    case AssetDelete(_) => m.event.Reject?
    case AssetFetch(_) => m.event == Network(id, None)
    case AssetStore(_, _) => m.event.Reject?
    case OtherMatch(url) => m.event.Reject? || (m.event.Advance? && NoneHolds(m.before.storage, url))
    case NavigationFallback(_) => m.event.Reject?
    case NavigationSecond(url) => m.event.Reject? || (m.event.Advance? && NoneHolds(m.before.storage, url))
    case _ => false
  }

  ghost predicate Answered(w: Worker, id: nat) {
    exists r :: r in w.replies && r.task == id
  }

  ghost predicate Abandoned(h: seq<Moment>, id: nat) {
    exists m :: m in h && GivesUp(m, id)
  }

  lemma FateStep(w: Worker, e: Event, id: nat)
    requires Concerns(e, id) && id in w.tasks && Asked(w.tasks[id]).Some?
    ensures var t := Step(w, e); GivesUp(Moment(w, e), id) <==> id !in t.tasks && t.replies == w.replies
  {
    FindExactly(w.storage, w.tasks[id].url);
    hide Find, NoneHolds, FirstHolds, Put, Evict, Open, Drop;
  }

  ghost predicate FateTold(h: seq<Moment>, w: Worker, id: nat) {
    && (forall m :: m in h && Requests(m, id) ==> id in w.tasks || Answered(w, id) || Abandoned(h, id))
    && (Abandoned(h, id) ==> id < w.nextTask && id !in w.tasks && !Answered(w, id))
  }

  lemma AbandonedSnoc(h: seq<Moment>, n: Moment, id: nat)
    ensures Abandoned(h + [n], id) <==> Abandoned(h, id) || GivesUp(n, id)
  {
    hide GivesUp;
    assert forall m :: m in h + [n] <==> m in h || m == n;
  }

  lemma FateOwn(h: seq<Moment>, w: Worker, e: Event, id: nat)
    requires Numbered(w) && TaskServes(h, w, id) && FateTold(h, w, id) && Concerns(e, id) && id in w.tasks
    ensures FateTold(h + [Moment(w, e)], Step(w, e), id)
  {
    var t, n := Step(w, e), Moment(w, e);
    AbandonedSnoc(h, n, id);
    StepFrame(w, e);
    ServingStep(w, e, id);
    if Asked(w.tasks[id]).Some? {
      FateStep(w, e, id);
    }
    hide Step, GivesUp, Asked, Abandoned, IsImmutable;
    if t.replies != w.replies {
      assert t.replies[|w.replies|] in t.replies;
    }
  }

  lemma FateOther(h: seq<Moment>, w: Worker, e: Event, id: nat)
    requires Numbered(w) && FateTold(h, w, id) && !(Concerns(e, id) && id in w.tasks)
    ensures FateTold(h + [Moment(w, e)], Step(w, e), id)
  {
    hide OnNetwork, OnAdvance, OnReject, IsImmutable, Abandoned;
    AbandonedSnoc(h, Moment(w, e), id);
    if e.Fetch? || e.Install? || e.Activation? {
    } else {
      StepFrame(w, e);
    }
  }

  lemma {:induction false} RunFates(older: seq<map<Url, Response>>, events: seq<Event>, id: nat)
    ensures FateTold(History(older, events), Run(older, events), id)
  {
    hide Step;
    if events != [] {
      hide FateTold;
      var front, e := events[..|events| - 1], events[|events| - 1];
      RunFates(older, front, id);
      RunNumbered(older, front);
      RunServes(older, front, id);
      if Concerns(e, id) && id in Run(older, front).tasks {
        FateOwn(History(older, front), Run(older, front), e, id);
      } else {
        FateOther(History(older, front), Run(older, front), e, id);
      }
    }
  }

  // ----- where an answer comes from -----

  /** The network answered handler `id` with the response. */
  ghost predicate Fetched(h: seq<Moment>, id: nat, r: Response) {
    exists m :: m in h && Own(m, id) && m.event == Network(id, Some(r))
  }

  predicate Kept(m: Moment, id: nat, name: Name, url: Url, r: Response) {
    && Own(m, id) && m.event == Advance(id)
    && var entries := Contents(Step(m.before, m.event).storage, name);
       url in entries && entries[url] == r
  }

  /** The handler itself put the response into a current cache before it answered. */
  ghost predicate WasKept(h: seq<Moment>, id: nat, name: Name, url: Url, r: Response) {
    exists m :: m in h && Kept(m, id, name, url, r)
  }

  /** A lookup of handler `id` found the response under the URL, in the first cache that holds it. */
  ghost predicate WasFound(h: seq<Moment>, id: nat, url: Url, r: Response) {
    exists m :: m in h && Own(m, id) && m.event == Advance(id) && FirstHolds(m.before.storage, url, r)
  }

  /** A lookup of handler `id` found no cache that holds the URL. */
  ghost predicate WasMissing(h: seq<Moment>, id: nat, url: Url) {
    exists m :: m in h && Own(m, id) && m.event == Advance(id) && NoneHolds(m.before.storage, url)
  }

  /** What a pending handler has behind it. */
  ghost predicate TaskKnows(h: seq<Moment>, id: nat, t: Task) {
    && (t.NavigationStore? || t.AssetStore? || t.OtherStore? ==>
          Fetched(h, id, t.response) && t.response.ok && t.response.basic)
    && (t.AssetStore? || t.OtherStore? ==> !t.response.html)
    && (t.NavigationSecond? ==> WasMissing(h, id, "/index.html"))
  }

  /** Is the response one the worker keeps: successful, of its own origin, and HTML only for a navigation? */
  predicate IsKeepable(r: Reply) {
    r.response.ok && r.response.basic && (r.navigation || !r.response.html)
  }

  ghost predicate ReplyKnows(h: seq<Moment>, r: Reply) {
    && (!r.cached ==> Fetched(h, r.task, r.response))
    && (!r.cached && IsKeepable(r) ==>
          WasKept(h, r.task, if r.navigation then Shell else Assets, if r.navigation then "/index.html" else r.url,
                  r.response))
    && (r.cached && !r.navigation ==> WasFound(h, r.task, r.url, r.response))
    && (r.cached && r.navigation ==>
          || WasFound(h, r.task, "/index.html", r.response)
          || (WasMissing(h, r.task, "/index.html") && WasFound(h, r.task, r.url, r.response)))
  }

  lemma KnowsSnoc(h: seq<Moment>, n: Moment)
    ensures forall id, t :: TaskKnows(h, id, t) ==> TaskKnows(h + [n], id, t)
    ensures forall r :: ReplyKnows(h, r) ==> ReplyKnows(h + [n], r)
  {
    assert forall m :: m in h ==> m in h + [n];
    forall id, r: Response | Fetched(h, id, r)
      ensures Fetched(h + [n], id, r)
    {
    }
    forall id, name, url, r | WasKept(h, id, name, url, r)
      ensures WasKept(h + [n], id, name, url, r)
    {
    }
    forall id, url, r | WasFound(h, id, url, r)
      ensures WasFound(h + [n], id, url, r)
    {
    }
    forall id, url | WasMissing(h, id, url)
      ensures WasMissing(h + [n], id, url)
    {
    }
    hide Fetched, WasKept, WasFound, WasMissing;
  }

  /** What handler `id` knows after its step, or what its answer rests on. */
  ghost predicate StepKnows(h: seq<Moment>, w: Worker, e: Event, id: nat) {
    var t, all := Step(w, e), h + [Moment(w, e)];
    && (id in t.tasks ==> TaskKnows(all, id, t.tasks[id]))
    && (t.replies != w.replies ==> t.replies != [] && ReplyKnows(all, t.replies[|t.replies| - 1]))
  }

  lemma NetworkKnows(h: seq<Moment>, w: Worker, id: nat, response: Option<Response>)
    requires id in w.tasks && TaskKnows(h, id, w.tasks[id])
    ensures StepKnows(h, w, Network(id, response), id)
  {
    var n := Moment(w, Network(id, response));
    KnowsSnoc(h, n);
    assert TaskKnows(h + [n], id, w.tasks[id]);
    if response.Some? {
      assert n in h + [n] && Own(n, id);
      assert Fetched(h + [n], id, response.value);
    }
    hide Fetched, WasKept, WasFound, WasMissing;
  }

  lemma RejectKnows(h: seq<Moment>, w: Worker, id: nat, created: bool)
    requires id in w.tasks && TaskKnows(h, id, w.tasks[id])
    ensures StepKnows(h, w, Reject(id, created), id)
  {
    KnowsSnoc(h, Moment(w, Reject(id, created)));
    hide Fetched, WasKept, WasFound, WasMissing, Open;
  }

  lemma LookupKnows(h: seq<Moment>, w: Worker, id: nat)
    requires id in w.tasks && TaskKnows(h, id, w.tasks[id])
    requires IsLookup(w.tasks[id])
    ensures StepKnows(h, w, Advance(id), id)
  {
    var n, url := Moment(w, Advance(id)), if w.tasks[id].NavigationFallback? then SHELL_URL else w.tasks[id].url;
    KnowsSnoc(h, n);
    FindExactly(w.storage, url);
    assert n in h + [n] && Own(n, id);
    var found := Find(w.storage, url);
    if found.Some? {
      assert WasFound(h + [n], id, url, found.value);
    } else {
      assert WasMissing(h + [n], id, url);
    }
    hide Fetched, WasKept, WasFound, WasMissing, Find, NoneHolds, FirstHolds;
  }

  lemma StoreKnows(h: seq<Moment>, w: Worker, id: nat)
    requires id in w.tasks && TaskKnows(h, id, w.tasks[id])
    requires var t := w.tasks[id]; t.NavigationStore? || t.AssetStore? || t.OtherStore?
    ensures StepKnows(h, w, Advance(id), id)
  {
    var n, r := Moment(w, Advance(id)), w.tasks[id].response;
    var name := if w.tasks[id].NavigationStore? then Shell else Assets;
    var url := if w.tasks[id].NavigationStore? then SHELL_URL else w.tasks[id].url;
    KnowsSnoc(h, n);
    ContentsPut(w.storage, name, url, r, name);
    hide Put, Contents;
    assert n in h + [n] && Kept(n, id, name, url, r);
    assert WasKept(h + [n], id, name, url, r);
    hide Fetched, WasKept, WasFound, WasMissing;
  }

  lemma OtherKnows(h: seq<Moment>, w: Worker, id: nat)
    requires Numbered(w) && id in w.tasks && TaskKnows(h, id, w.tasks[id])
    requires var t := w.tasks[id]; !t.NavigationStore? && !t.AssetStore? && !t.OtherStore? && !IsLookup(t)
    ensures StepKnows(h, w, Advance(id), id)
  {
    KnowsSnoc(h, Moment(w, Advance(id)));
    hide Fetched, WasKept, WasFound, WasMissing, Find, Put, Evict, Open, Drop, SpawnAll, Precaching, Dropping;
    match w.tasks[id]
    case InstallOpen(urls) => SpawnAllFrame(End(Keep(w, Open(w.storage, Assets)), id), Precaching(urls));
    case Activate => SpawnAllFrame(End(w, id), Dropping(w.storage));
    case _ =>
  }

  lemma OwnKnows(h: seq<Moment>, w: Worker, e: Event, id: nat)
    requires Numbered(w) && Concerns(e, id) && id in w.tasks && TaskKnows(h, id, w.tasks[id])
    ensures StepKnows(h, w, e, id)
  {
    hide StepKnows, TaskKnows, Numbered;
    match e
    case Network(_, response) => NetworkKnows(h, w, id, response);
    case Reject(_, created) => RejectKnows(h, w, id, created);
    case Advance(_) =>
      var t := w.tasks[id];
      if t.NavigationStore? || t.AssetStore? || t.OtherStore? {
        StoreKnows(h, w, id);
      } else if IsLookup(t) {
        LookupKnows(h, w, id);
      } else {
        OtherKnows(h, w, id);
      }
  }

  ghost predicate AllKnow(h: seq<Moment>, w: Worker) {
    && (forall id :: id in w.tasks ==> TaskKnows(h, id, w.tasks[id]))
    && (forall r :: r in w.replies ==> ReplyKnows(h, r))
  }

  lemma CallKnows(h: seq<Moment>, w: Worker, e: Event)
    requires AllKnow(h, w) && (e.Fetch? || e.Install? || e.Activation?)
    ensures AllKnow(h + [Moment(w, e)], Step(w, e))
  {
    KnowsSnoc(h, Moment(w, e));
    hide ReplyKnows, Fetched, WasMissing, IsImmutable;
  }

  lemma StepAllKnow(h: seq<Moment>, w: Worker, e: Event)
    requires Numbered(w) && AllKnow(h, w)
    ensures AllKnow(h + [Moment(w, e)], Step(w, e))
  {
    if e.Fetch? || e.Install? || e.Activation? {
      CallKnows(h, w, e);
    } else {
      KnowsSnoc(h, Moment(w, e));
      StepFrame(w, e);
      hide Step, ReplyKnows;
      if e.task in w.tasks {
        OwnKnows(h, w, e, e.task);
      }
      BackgroundKnows(h + [Moment(w, e)]);
      hide TaskKnows;
    }
  }

  lemma BackgroundKnows(h: seq<Moment>)
    ensures forall id, t: Task :: IsBackground(t) ==> TaskKnows(h, id, t)
  {
  }

  lemma {:induction false} RunKnows(older: seq<map<Url, Response>>, events: seq<Event>)
    ensures AllKnow(History(older, events), Run(older, events))
  {
    hide Step;
    if events != [] {
      hide AllKnow;
      var front := events[..|events| - 1];
      RunKnows(older, front);
      RunNumbered(older, front);
      StepAllKnow(History(older, front), Run(older, front), events[|events| - 1]);
    }
  }

  // ----- the results about requests -----

  /**
   Every request is served once: at any time its handler is pending, has given exactly one answer,
   for the URL and mode asked, or has given up, and these exclude each other.
   */
  lemma AnsweredOnce(older: seq<map<Url, Response>>, events: seq<Event>, m: Moment, id: nat)
    requires m in History(older, events) && Requests(m, id)
    ensures var h, w := History(older, events), Run(older, events);
            && (id in w.tasks <==> !Answered(w, id) && !Abandoned(h, id))
            && !(Answered(w, id) && Abandoned(h, id))
            && (forall r :: r in w.replies && r.task == id ==>
                  r.url == m.event.url && r.navigation == m.event.navigation)
            && (forall i, j :: 0 <= i < j < |w.replies| ==> w.replies[i].task != w.replies[j].task)
  {
    hide Run, Abandoned;
    RunNumbered(older, events);
    RunFates(older, events, id);
    RunServes(older, events, id);
    var w := Run(older, events);
    forall r | r in w.replies && r.task == id
      ensures r.url == m.event.url && r.navigation == m.event.navigation
    {
      RunServesReplies(older, events, r);
    }
  }

  /**
   Where answers come from. One that is not cached is what the network answered this very handler,
   and if it may be kept, the handler has kept it: a navigation as the shell, anything else under
   its URL. A cached one is what the handler's own lookup found in the first cache that holds the
   URL: for a navigation the shell, and its own URL only if no cache held the shell.
   */
  lemma AnswerOrigin(older: seq<map<Url, Response>>, events: seq<Event>, r: Reply)
    requires r in Run(older, events).replies
    ensures var h, keepable := History(older, events), r.response.ok && r.response.basic;
            && (!r.cached ==> Fetched(h, r.task, r.response))
            && (!r.cached && r.navigation && keepable ==> WasKept(h, r.task, Shell, "/index.html", r.response))
            && (!r.cached && !r.navigation && keepable && !r.response.html ==>
                  WasKept(h, r.task, Assets, r.url, r.response))
            && (r.cached && !r.navigation ==> WasFound(h, r.task, r.url, r.response))
            && (r.cached && r.navigation ==>
                  || WasFound(h, r.task, "/index.html", r.response)
                  || (WasMissing(h, r.task, "/index.html") && WasFound(h, r.task, r.url, r.response)))
  {
    hide Run, Fetched, WasKept, WasFound, WasMissing, TaskKnows;
    RunKnows(older, events);
    assert ReplyKnows(History(older, events), r);
  }

  /** The lookup that the answer to a request for an immutable URL rests on. */
  ghost predicate RestsOn(h: seq<Moment>, r: Reply, m: Moment) {
    && m in h && LooksUp(m, r.task) && m.before.tasks[r.task].url == r.url
    && if r.cached then Hits(m, r.task, r.response) else Misses(m, r.task, r.url)
  }

  lemma AssetAnswer(h: seq<Moment>, w: Worker, e: Event, r: Reply)
    requires Numbered(w) && AssetTold(h, w, r.task) && TaskServes(h, w, r.task)
    requires Concerns(e, r.task) && r.task in w.tasks && Step(w, e).replies == w.replies + [r]
    requires !r.navigation && IsImmutable(r.url)
    ensures exists m :: RestsOn(h + [Moment(w, e)], r, m)
  {
    hide Step, Find, IsImmutable;
    var id, n := r.task, Moment(w, e);
    ServingStep(w, e, id);
    var m :| m in h && Requests(m, id);
    assert IsFor(m, w.tasks[id]);
    assert w.replies + [r] != w.replies;
    assert (w.replies + [r])[|w.replies|] == r;
    if w.tasks[id].AssetMatch? {
      LookupStep(w, e, id);
      assert RestsOn(h + [n], r, n);
    } else {
      PastLookupStep(w, e, id);
      var k :| k in h && Misses(k, id, w.tasks[id].url);
      assert RestsOn(h + [n], r, k);
    }
  }

  lemma {:induction false} RunAssetReplies(older: seq<map<Url, Response>>, events: seq<Event>, r: Reply)
    requires r in Run(older, events).replies && !r.navigation && IsImmutable(r.url)
    ensures exists m :: RestsOn(History(older, events), r, m)
  {
    var front, e := events[..|events| - 1], events[|events| - 1];
    var w := Run(older, front);
    hide Step, Run, IsImmutable, Hits, Misses;
    assert Run(older, events) == Step(w, e) by { RunLast(older, events); }
    if r in w.replies {
      RunAssetReplies(older, front, r);
      var m :| RestsOn(History(older, front), r, m);
      assert RestsOn(History(older, events), r, m);
    } else {
      RunNumbered(older, front);
      RunAssets(older, front, r.task);
      RunServes(older, front, r.task);
      assert !e.Fetch? && !e.Install? && !e.Activation? by { CallsAnswerNothing(w, e); }
      StepFrame(w, e);
      assert Step(w, e).replies == w.replies + [r];
      AssetAnswer(History(older, front), w, e, r);
      assert History(older, events) == History(older, front) + [Moment(w, e)];
      var m :| RestsOn(History(older, front) + [Moment(w, e)], r, m);
      assert RestsOn(History(older, events), r, m);
    }
  }

  /**
   Cache first: a request for an immutable URL that is no navigation is answered from a cache
   exactly when, at its handler's one lookup, the first cache holding the URL held it as something
   other than HTML, and the answer is that response.
   */
  lemma CacheFirstExactly(older: seq<map<Url, Response>>, events: seq<Event>, r: Reply)
    requires r in Run(older, events).replies && !r.navigation && |r.url| >= 8 && r.url[..8] == "/assets/"
    ensures exists m :: m in History(older, events) && LooksUp(m, r.task) && m.before.tasks[r.task].url == r.url
                        && (forall n :: n in History(older, events) && LooksUp(n, r.task) ==> n == m)
                        && (r.cached <==> exists found :: FirstHolds(m.before.storage, r.url, found) && !found.html)
                        && (r.cached ==> FirstHolds(m.before.storage, r.url, r.response))
  {
    RunAssetReplies(older, events, r);
    var m :| RestsOn(History(older, events), r, m);
    RunAssets(older, events, r.task);
    FindExactly(m.before.storage, r.url);
    hide Run, Find, FirstHolds, IsImmutable;
  }

  /** A hit is served at once, and its handler never sends a request, before or after. */
  lemma HitIsServed(older: seq<map<Url, Response>>, events: seq<Event>, k: nat, id: nat, found: Response)
    requires k < |events| && LooksUp(Moment(Run(older, events[..k]), events[k]), id)
    requires var w := Run(older, events[..k]); FirstHolds(w.storage, w.tasks[id].url, found) && !found.html
    ensures Reply(id, Run(older, events[..k]).tasks[id].url, false, true, found) in Run(older, events[..k + 1]).replies
    ensures forall j :: 0 <= j <= |events| && id in Run(older, events[..j]).tasks ==>
              j <= k && !Run(older, events[..j]).tasks[id].AssetFetch?
  {
    var m := Moment(Run(older, events[..k]), events[k]);
    FindExactly(m.before.storage, m.before.tasks[id].url);
    hide Run, Find, FirstHolds;
    forall j | k < j <= |events|
      ensures id !in Run(older, events[..j]).tasks
      ensures Reply(id, m.before.tasks[id].url, false, true, found) in Run(older, events[..j]).replies
    {
      HistoryAt(older, events[..j], k);
      assert events[..j][..k] == events[..k];
      RunAssets(older, events[..j], id);
      assert Hits(m, id, found);
    }
    forall j | 0 <= j <= k && id in Run(older, events[..j]).tasks
      ensures !Run(older, events[..j]).tasks[id].AssetFetch?
    {
      RunAssets(older, events[..j], id);
      RunAssets(older, events, id);
      HistoryPrefix(older, events, j);
      HistoryAt(older, events, k);
      if Run(older, events[..j]).tasks[id].AssetFetch? {
        assert false;
      }
    }
  }

  lemma HistoryAt(older: seq<map<Url, Response>>, events: seq<Event>, k: nat)
    requires k < |events|
    ensures |History(older, events)| == |events|
    ensures History(older, events)[k] == Moment(Run(older, events[..k]), events[k])
  {
    hide Run;
    HistoryPrefix(older, events, k + 1);
    assert events[..k + 1][..k] == events[..k];
    HistoryPrefix(older, events[..k + 1], k);
    HistoryPrefix(older, events[..k], 0);
  }

  // ----- HTML under an immutable URL -----

  /** The lookup finds HTML. */
  predicate FindsHtml(m: Moment, id: nat) {
    LooksUp(m, id) && var found := Find(m.before.storage, m.before.tasks[id].url); found.Some? && found.value.html
  }

  /** The handler has removed the URL from the asset cache, and nothing else from it. */
  predicate Evicts(m: Moment, id: nat, url: Url) {
    && Own(m, id) && m.event == Advance(id)
    && Contents(Step(m.before, m.event).storage, Assets) == Contents(m.before.storage, Assets) - {url}
  }

  lemma {:induction false} ContentsEvict(s: Storage, name: Name, url: Url)
    ensures Contents(Evict(s, name, url), name) == Contents(s, name) - {url}
  {
    if s != [] && s[0].name != name {
      ContentsEvict(s[1..], name, url);
    }
  }

  ghost predicate EvictTold(h: seq<Moment>, w: Worker, id: nat) {
    forall m :: m in h && FindsHtml(m, id) ==>
      || (id in w.tasks && w.tasks[id] == AssetDelete(m.before.tasks[id].url))
      || (exists n :: n in h && Evicts(n, id, m.before.tasks[id].url))
      || Abandoned(h, id)
  }

  lemma EvictOwn(h: seq<Moment>, w: Worker, e: Event, id: nat)
    requires EvictTold(h, w, id) && AssetTold(h, w, id) && Concerns(e, id) && id in w.tasks
    ensures EvictTold(h + [Moment(w, e)], Step(w, e), id)
  {
    var k, all := Moment(w, e), h + [Moment(w, e)];
    AbandonedSnoc(h, k, id);
    assert k in all && Own(k, id);
    hide Abandoned, Find, Put, Drop, SpawnAll, Open;
    forall m | m in all && FindsHtml(m, id)
      ensures || (id in Step(w, e).tasks && Step(w, e).tasks[id] == AssetDelete(m.before.tasks[id].url))
              || (exists n :: n in all && Evicts(n, id, m.before.tasks[id].url))
              || Abandoned(all, id)
    {
      if m == k {
      } else if w.tasks[id] == AssetDelete(m.before.tasks[id].url) {
        ContentsEvict(w.storage, Assets, m.before.tasks[id].url);
        hide Evict, Contents;
        if e.Advance? {
          assert Evicts(k, id, m.before.tasks[id].url);
        } else if e.Reject? {
          assert GivesUp(k, id);
        }
      } else if n :| n in h && Evicts(n, id, m.before.tasks[id].url) {
        assert n in all;
      }
    }
  }

  lemma EvictOther(h: seq<Moment>, w: Worker, e: Event, id: nat)
    requires Numbered(w) && EvictTold(h, w, id) && !(Concerns(e, id) && id in w.tasks)
    ensures EvictTold(h + [Moment(w, e)], Step(w, e), id)
  {
    var k, all := Moment(w, e), h + [Moment(w, e)];
    AbandonedSnoc(h, k, id);
    assert id in w.tasks ==> id in Step(w, e).tasks && Step(w, e).tasks[id] == w.tasks[id] by {
      hide OnNetwork, OnAdvance, OnReject, IsImmutable;
      if !e.Fetch? && !e.Install? && !e.Activation? {
        StepFrame(w, e);
      }
    }
    hide Abandoned, Find, Step, Evicts;
    assert forall n :: n in h ==> n in all;
    forall m | m in all && FindsHtml(m, id)
      ensures || (id in Step(w, e).tasks && Step(w, e).tasks[id] == AssetDelete(m.before.tasks[id].url))
              || (exists n :: n in all && Evicts(n, id, m.before.tasks[id].url))
              || Abandoned(all, id)
    {
      assert m in h;
      if n :| n in h && Evicts(n, id, m.before.tasks[id].url) {
        assert n in all;
      }
    }
  }

  /**
   A handler whose lookup found HTML under an immutable URL is about to remove the URL from the
   asset cache, has removed it, or has given up: it never goes on to the network before.
   */
  lemma {:induction false} HtmlIsEvicted(older: seq<map<Url, Response>>, events: seq<Event>, id: nat)
    ensures EvictTold(History(older, events), Run(older, events), id)
  {
    hide Step;
    if events != [] {
      hide EvictTold;
      var front, e := events[..|events| - 1], events[|events| - 1];
      HtmlIsEvicted(older, front, id);
      RunNumbered(older, front);
      RunAssets(older, front, id);
      if Concerns(e, id) && id in Run(older, front).tasks {
        EvictOwn(History(older, front), Run(older, front), e, id);
      } else {
        EvictOther(History(older, front), Run(older, front), e, id);
      }
    }
  }
}
