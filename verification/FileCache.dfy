/**
 The file-backed retry cache as an interleaved step system: requests, the names of cache files, the
 holders that unlink them, the active map and the queue of delayed tasks.

 A `save` runs in several steps so that other threads may act in between. Names are hard links: two
 names may lead to the same file. A fresh key is one that was never generated before.
 */
module FileCache {
  import opened Common

  type Key = nat
  type Id = nat

  /** A cache file: being written under its first name, or holding the whole serialised request. */
  datatype File<P> = Partial(name: Key) | Complete(payload: P)

  datatype Body = InMemory | InFile(key: Key)

  /** A live request. One whose body is in a cache file owns the holder that unlinks that name. */
  datatype Request<P> = Request(
    body: Body,
    payload: P,
    attached: bool,    // attach has finished
    runs: nat,         // history: how often this request was re-run
    saves: nat,        // history: calls of save during this handling
    lost: nat,         // history: retry counts that were dropped with its active entries
    again: bool)       // history: saved more than once in this or an earlier handling

  datatype Task<P> = Task(
    due: nat,
    key: Key,
    retries: nat,
    runs: nat,         // history, with the payload and what the request's own history was
    lost: nat,
    again: bool,
    payload: P)

  datatype Stage = Looked | Spooled | Linked | Erased

  /** A save in progress; `spool` tells whether its own buffer, holding the name `key`, is alive. */
  datatype Save = Save(
    stage: Stage,
    key: Key,
    found: bool,
    retries: nat,
    link: Key,
    spool: bool,
    lost: nat)         // history: what had been dropped for the request at the lookup

  datatype Cache<P> = Cache(
    maxRetries: nat,
    now: nat,
    used: set<Key>,                  // keys generated so far
    names: map<Key, nat>,            // the cache directory: name to file
    files: seq<File<P>>,
    active: map<Key, nat>,
    waiting: seq<Task<P>>,
    popped: Option<Task<P>>,         // taken by the handler thread, not opened yet
    live: map<Id, Request<P>>,
    saves: map<Id, Save>)

  function Create<P>(maxRetries: nat): Cache<P> {
    Cache(maxRetries, 0, {}, map[], [], map[], [], None, map[], map[])
  }

  // ----- the queue -----

  /** Insertion into the due-time multimap: after everything due no later. */
  function Insert<P>(q: seq<Task<P>>, t: Task<P>): seq<Task<P>> {
    if q == [] || t.due < q[0].due then [t] + q else [q[0]] + Insert(q[1..], t)
  }

  ghost predicate Sorted<P>(q: seq<Task<P>>) {
    forall i, j :: 0 <= i < j < |q| ==> q[i].due <= q[j].due
  }

  ghost predicate DistinctKeys<P>(q: seq<Task<P>>) {
    forall i, j :: 0 <= i < j < |q| ==> q[i].key != q[j].key
  }

  // ----- the operations -----

  /** A request whose body stays in memory. */
  function Arrive<P>(s: Cache<P>, r: Id, payload: P): Cache<P> {
    s.(live := s.live[r := Request(InMemory, payload, true, 0, 0, 0, false)])
  }

  /** create(): a new file for a large POST, known as active with no retries. */
  function Open<P>(s: Cache<P>, r: Id, payload: P, key: Key): Cache<P> {
    s.(used := s.used + {key}, names := s.names[key := |s.files|], files := s.files + [Partial(key)],
       active := if key in s.active then s.active else s.active[key := 0],
       live := s.live[r := Request(InFile(key), payload, false, 0, 0, 0, false)])
  }

  /** attach has written the whole request. */
  function Attach<P>(s: Cache<P>, r: Id): Cache<P>
    requires r in s.live
  {
    var q := s.live[r];
    var t := s.(live := s.live[r := q.(attached := true)]);
    if q.body.InFile? && q.body.key in s.names && s.names[q.body.key] < |s.files| then
      t.(files := s.files[s.names[q.body.key] := Complete(q.payload)])
    else t
  }

  function CountSave<P>(s: Cache<P>, r: Id): Cache<P>
    requires r in s.live
  {
    var q := s.live[r];
    s.(live := s.live[r := q.(saves := q.saves + 1, again := q.again || q.saves > 0)])
  }

  /** eraseActive on behalf of a request; the count in the entry is dropped. */
  function EraseActive<P>(s: Cache<P>, r: Id, key: Key): Cache<P>
    requires r in s.live
  {
    s.(active := s.active - {key}, live := s.live[r := s.live[r].(lost := s.live[r].lost + Count(s, key))])
  }

  function Count<P>(s: Cache<P>, key: Key): nat { if key in s.active then s.active[key] else 0 }

  /** save with no delay, or in a cache that allows no retries. */
  function SaveSkip<P>(s: Cache<P>, r: Id): Cache<P>
    requires r in s.live
  {
    var t := CountSave(s, r);
    if s.live[r].body.InFile? then EraseActive(t, r, s.live[r].body.key) else t
  }

  /** save up to the lookup in the active map; a body in memory gets a fresh key. */
  function SaveLook<P>(s: Cache<P>, r: Id, key: Key): Cache<P>
    requires r in s.live
  {
    CountSave(s, r).(used := s.used + {key},
      saves := s.saves[r := Save(Looked, key, key in s.active, Count(s, key), 0, false, s.live[r].lost)])
  }

  predicate Exhausted<P>(s: Cache<P>, v: Save) {
    v.found && v.retries >= s.maxRetries
  }

  function SaveGiveUp<P>(s: Cache<P>, r: Id): Cache<P>
    requires r in s.saves && r in s.live
  {
    EraseActive(s, r, s.saves[r].key).(saves := s.saves - {r})
  }

  /** saveRequest for a body in memory: a file of its own, with the request serialised into it. */
  function SaveSpool<P>(s: Cache<P>, r: Id): Cache<P>
    requires r in s.saves && r in s.live
  {
    s.(names := s.names[s.saves[r].key := |s.files|], files := s.files + [Complete(s.live[r].payload)],
       saves := s.saves[r := s.saves[r].(stage := Spooled, spool := true)])
  }

  /** createHardLink: a second name for the file. */
  function SaveLink<P>(s: Cache<P>, r: Id, link: Key): Cache<P>
    requires r in s.saves && s.saves[r].key in s.names
  {
    s.(used := s.used + {link}, names := s.names[link := s.names[s.saves[r].key]],
       saves := s.saves[r := s.saves[r].(stage := Linked, link := link)])
  }

  function SaveLinkFails<P>(s: Cache<P>, r: Id): Cache<P>
    requires r in s.saves && r in s.live
  {
    var v := s.saves[r];
    (if v.found then EraseActive(s, r, v.key) else s).(
       saves := s.saves - {r},
       names := if v.spool then s.names - {v.key} else s.names)
  }

  /** saveRequest returns and its own buffer unlinks the name it held. */
  function SaveRelease<P>(s: Cache<P>, r: Id): Cache<P>
    requires r in s.saves
  {
    s.(names := s.names - {s.saves[r].key}, saves := s.saves[r := s.saves[r].(spool := false)])
  }

  function SaveErase<P>(s: Cache<P>, r: Id): Cache<P>
    requires r in s.saves && r in s.live
  {
    EraseActive(s, r, s.saves[r].key).(saves := s.saves[r := s.saves[r].(stage := Erased)])
  }

  function TaskOf<P>(s: Cache<P>, r: Id, delay: nat): Task<P>
    requires r in s.saves && r in s.live
  {
    var q := s.live[r];
    Task(s.now + delay, s.saves[r].link, Seen(s.saves[r]) + 1, q.runs + 1, s.saves[r].lost, q.again, q.payload)
  }

  /** The retry count a save goes by: that of the active entry, or none. */
  function Seen(v: Save): nat { if v.found then v.retries else 0 }

  function SaveQueue<P>(s: Cache<P>, r: Id, delay: nat): Cache<P>
    requires r in s.saves && r in s.live
  {
    s.(saves := s.saves - {r}, waiting := Insert(s.waiting, TaskOf(s, r, delay)))
  }

  function Pop<P>(s: Cache<P>): Cache<P>
    requires |s.waiting| > 0
  {
    s.(popped := Some(s.waiting[0]), waiting := s.waiting[1..])
  }

  predicate Readable<P>(s: Cache<P>, key: Key) {
    key in s.names && s.names[key] < |s.files| && s.files[s.names[key]].Complete?
  }

  /** The handler opens the file and handles its request again; an unreadable file is dropped. */
  function Restart<P>(s: Cache<P>, r: Id): Cache<P>
    requires s.popped.Some?
  {
    var t := s.popped.value;
    if !Readable(s, t.key) then s.(popped := None, names := s.names - {t.key})
    else
      s.(popped := None,
         active := if t.key in s.active then s.active else s.active[t.key := t.retries],
         live := s.live[r := Request(InFile(t.key), s.files[s.names[t.key]].payload, true, t.runs, 0, t.lost, t.again)])
  }

  /** A request is destroyed, and its holder unlinks its name. */
  function Drop<P>(s: Cache<P>, r: Id): Cache<P>
    requires r in s.live
  {
    var t := s.(live := s.live - {r});
    if s.live[r].body.InFile? then t.(names := s.names - {s.live[r].body.key}) else t
  }

  // ----- steps and runs -----

  predicate At<P>(s: Cache<P>, r: Id, stage: Stage) {
    r in s.live && r in s.saves && s.saves[r].stage == stage
  }

  predicate MayLink<P>(s: Cache<P>, r: Id) {
    At(s, r, Spooled) || (At(s, r, Looked) && !Exhausted(s, s.saves[r]) && s.live[r].body.InFile?)
  }

  predicate MayQueue<P>(s: Cache<P>, r: Id) {
    At(s, r, Erased) || (At(s, r, Linked) && !s.saves[r].spool && !s.saves[r].found)
  }

  datatype Step<P> =
    | DoArrive(r: Id, payload: P)
    | DoOpen(r: Id, payload: P, key: Key)
    | DoAttach(r: Id)
    | DoSkip(r: Id)
    | DoLook(r: Id, key: Key)
    | DoGiveUp(r: Id)
    | DoSpool(r: Id)
    | DoLink(r: Id, link: Key)
    | DoLinkFails(r: Id)
    | DoRelease(r: Id)
    | DoErase(r: Id)
    | DoQueue(r: Id, delay: nat)
    | DoPop
    | DoRestart(r: Id)
    | DoDrop(r: Id)
    | DoTick

  ghost predicate Next<P>(s: Cache<P>, step: Step<P>, t: Cache<P>) {
    match step
    case DoArrive(r, p) => r !in s.live && t == Arrive(s, r, p)
    case DoOpen(r, p, key) => r !in s.live && key !in s.used && t == Open(s, r, p, key)
    case DoAttach(r) => r in s.live && !s.live[r].attached && t == Attach(s, r)
    case DoSkip(r) => Idle(s, r) && t == SaveSkip(s, r)
    case DoLook(r, key) => Idle(s, r) && s.maxRetries > 0 && KeyFor(s, r, key) && t == SaveLook(s, r, key)
    case DoGiveUp(r) => At(s, r, Looked) && Exhausted(s, s.saves[r]) && t == SaveGiveUp(s, r)
    case DoSpool(r) =>
      At(s, r, Looked) && !Exhausted(s, s.saves[r]) && s.live[r].body.InMemory? && t == SaveSpool(s, r)
    case DoLink(r, link) => MayLink(s, r) && link !in s.used && s.saves[r].key in s.names && t == SaveLink(s, r, link)
    case DoLinkFails(r) => MayLink(s, r) && t == SaveLinkFails(s, r)
    case DoRelease(r) => At(s, r, Linked) && s.saves[r].spool && t == SaveRelease(s, r)
    case DoErase(r) => At(s, r, Linked) && !s.saves[r].spool && s.saves[r].found && t == SaveErase(s, r)
    case DoQueue(r, delay) => delay > 0 && MayQueue(s, r) && t == SaveQueue(s, r, delay)
    case DoPop => s.popped.None? && |s.waiting| > 0 && s.waiting[0].due <= s.now && t == Pop(s)
    case DoRestart(r) => s.popped.Some? && r !in s.live && t == Restart(s, r)
    case DoDrop(r) => r in s.live && r !in s.saves && t == Drop(s, r)
    case DoTick => t == s.(now := s.now + 1)
  }

  predicate Idle<P>(s: Cache<P>, r: Id) {
    r in s.live && s.live[r].attached && r !in s.saves
  }

  predicate KeyFor<P>(s: Cache<P>, r: Id, key: Key)
    requires r in s.live
  {
    if s.live[r].body.InFile? then key == s.live[r].body.key else key !in s.used
  }

  ghost predicate Run<P>(states: seq<Cache<P>>, steps: seq<Step<P>>) {
    && |states| == |steps| + 1
    && states[0] == Create(states[0].maxRetries)
    && forall i :: 0 <= i < |steps| ==> Next(states[i], steps[i], states[i + 1])
  }

  // ----- who owns a name -----

  /** A name belongs to the queue, the handler, a request's holder, a save's buffer or a save's new link. */
  datatype Owner = Queue | Handler | Held(r: Id) | Spool(r: Id) | Link(r: Id) | Reserved(r: Id)

  predicate HasLink(v: Save) {
    v.stage == Linked || v.stage == Erased
  }

  /** The key a save generated for a body in memory, before it has made a file of that name. */
  predicate Reserves<P>(s: Cache<P>, r: Id) {
    r in s.saves && r in s.live && s.live[r].body.InMemory? && s.saves[r].stage == Looked
  }

  ghost predicate OwnedBy<P>(s: Cache<P>, k: Key, w: Owner) {
    match w
    case Queue => exists t :: t in s.waiting && t.key == k
    case Handler => s.popped.Some? && s.popped.value.key == k
    case Held(r) => r in s.live && s.live[r].body == InFile(k)
    case Spool(r) => r in s.saves && s.saves[r].spool && s.saves[r].key == k
    case Link(r) => r in s.saves && HasLink(s.saves[r]) && s.saves[r].link == k
    case Reserved(r) => Reserves(s, r) && s.saves[r].key == k
  }

  ghost predicate Holds<P>(s: Cache<P>, k: Key, p: P) {
    k in s.names && s.names[k] < |s.files| && s.files[s.names[k]] == Complete(p)
  }

  ghost predicate KeyOk<P>(s: Cache<P>, o: map<Key, Owner>, k: Key) {
    && (k in o ==> k in s.used && OwnedBy(s, k, o[k]) && (k in s.names <==> !o[k].Reserved?))
    && (k in s.names ==> k in o && s.names[k] < |s.files|)
    && (k in s.names && s.files[s.names[k]].Partial? ==> s.files[s.names[k]].name == k)
    && (k in s.active ==> k in s.used && (k in o ==> o[k].Held?))
  }

  ghost predicate TaskOk<P>(s: Cache<P>, o: map<Key, Owner>, t: Task<P>, w: Owner) {
    t.key in o && o[t.key] == w && Holds(s, t.key, t.payload)
  }

  ghost predicate RequestOk<P>(s: Cache<P>, o: map<Key, Owner>, r: Id)
    requires r in s.live
  {
    var q := s.live[r];
    q.body.InFile? ==>
      && q.body.key in o && o[q.body.key] == Held(r)
      && q.body.key in s.names && s.names[q.body.key] < |s.files|
      && (if q.attached then Holds(s, q.body.key, q.payload) else s.files[s.names[q.body.key]].Partial?)
  }

  ghost predicate SaveOk<P>(s: Cache<P>, o: map<Key, Owner>, r: Id)
    requires r in s.saves
  {
    var v := s.saves[r];
    && r in s.live && s.live[r].attached
    && (s.live[r].body.InFile? ==> v.key == s.live[r].body.key && !v.spool && v.stage != Spooled)
    && (s.live[r].body.InMemory? ==> !v.found && v.stage != Erased)
    && (Reserves(s, r) ==> v.key in o && o[v.key] == Reserved(r) && !v.spool)
    && (v.spool ==> v.key in o && o[v.key] == Spool(r) && (v.stage == Spooled || v.stage == Linked))
    && (v.stage == Spooled ==> v.spool && Holds(s, v.key, s.live[r].payload))
    && (HasLink(v) ==> v.link in o && o[v.link] == Link(r) && Holds(s, v.link, s.live[r].payload))
  }

  ghost predicate KeysOk<P>(s: Cache<P>, o: map<Key, Owner>) {
    forall k :: KeyOk(s, o, k)
  }

  ghost predicate SavesOk<P>(s: Cache<P>, o: map<Key, Owner>) {
    forall r :: r in s.saves ==> SaveOk(s, o, r)
  }

  /** Everything that mentions a name owns it and relies on a whole file; nothing else owns a name. */
  ghost predicate Safe<P>(s: Cache<P>, o: map<Key, Owner>) {
    && Sorted(s.waiting) && DistinctKeys(s.waiting)
    && KeysOk(s, o)
    && (forall t :: t in s.waiting ==> TaskOk(s, o, t, Queue))
    && (s.popped.Some? ==> TaskOk(s, o, s.popped.value, Handler))
    && (forall r :: r in s.live ==> RequestOk(s, o, r))
    && SavesOk(s, o)
  }

  // ----- the queue keeps its order and its tasks -----

  lemma {:induction false} InsertMember<P>(q: seq<Task<P>>, t: Task<P>, x: Task<P>)
    ensures x in Insert(q, t) <==> x in q || x == t
  {
    if q == [] || t.due < q[0].due {
    } else {
      InsertMember(q[1..], t, x);
      assert q == [q[0]] + q[1..];
    }
  }

  lemma {:induction false} InsertKeeps<P>(q: seq<Task<P>>, t: Task<P>)
    requires Sorted(q) && DistinctKeys(q) && forall x :: x in q ==> x.key != t.key
    ensures Sorted(Insert(q, t)) && DistinctKeys(Insert(q, t))
  {
    if q == [] || t.due < q[0].due {
    } else {
      var rest := Insert(q[1..], t);
      InsertKeeps(q[1..], t);
      forall i | 0 <= i < |rest|
        ensures q[0].due <= rest[i].due && q[0].key != rest[i].key
      {
        InsertMember(q[1..], t, rest[i]);
      }
    }
  }

  // ----- every operation keeps the cache safe -----

  lemma OpenKeepsSaves<P>(s: Cache<P>, o: map<Key, Owner>, r: Id, p: P, key: Key)
    requires Safe(s, o) && r !in s.live && key !in s.used
    ensures SavesOk(Open(s, r, p, key), o[key := Held(r)])
  {
    var t, o' := Open(s, r, p, key), o[key := Held(r)];
    assert KeyOk(s, o, key);
    forall q | q in t.saves ensures SaveOk(t, o', q) { assert SaveOk(s, o, q); }
  }

  lemma OpenSafe<P>(s: Cache<P>, o: map<Key, Owner>, r: Id, p: P, key: Key)
    requires Safe(s, o) && r !in s.live && key !in s.used
    ensures Safe(Open(s, r, p, key), o[key := Held(r)])
  {
    var t, o' := Open(s, r, p, key), o[key := Held(r)];
    assert KeyOk(s, o, key);
    forall k ensures KeyOk(t, o', k) { assert KeyOk(s, o, k); }
    forall x | x in t.waiting ensures TaskOk(t, o', x, Queue) { assert TaskOk(s, o, x, Queue); }
    forall q | q in t.live ensures RequestOk(t, o', q) { assert q != r ==> RequestOk(s, o, q); }
    OpenKeepsSaves(s, o, r, p, key);
  }

  lemma ArriveSafe<P>(s: Cache<P>, o: map<Key, Owner>, r: Id, p: P)
    requires Safe(s, o) && r !in s.live
    ensures Safe(Arrive(s, r, p), o)
  {
    var t, o' := Arrive(s, r, p), o;
    forall k ensures KeyOk(t, o', k) { assert KeyOk(s, o, k); }
    forall x | x in t.waiting ensures TaskOk(t, o', x, Queue) { assert TaskOk(s, o, x, Queue); }
    forall q | q in t.live ensures RequestOk(t, o', q) { assert q != r ==> RequestOk(s, o, q); }
    forall q | q in t.saves ensures SaveOk(t, o', q) { assert SaveOk(s, o, q); }
  }

  lemma AttachKeepsSaves<P>(s: Cache<P>, o: map<Key, Owner>, r: Id)
    requires Safe(s, o) && r in s.live && !s.live[r].attached
    ensures SavesOk(Attach(s, r), o)
  {
    var t, o' := Attach(s, r), o;
    assert RequestOk(s, o, r);
    if s.live[r].body.InFile? { assert KeyOk(s, o, s.live[r].body.key); }
    forall q | q in t.saves ensures SaveOk(t, o', q) { assert SaveOk(s, o, q); }
  }

  lemma AttachKeepsRequests<P>(s: Cache<P>, o: map<Key, Owner>, r: Id)
    requires Safe(s, o) && r in s.live && !s.live[r].attached
    ensures forall q :: q in s.live ==> RequestOk(Attach(s, r), o, q)
  {
    var t := Attach(s, r);
    assert RequestOk(s, o, r);
    if s.live[r].body.InFile? { assert KeyOk(s, o, s.live[r].body.key); }
    forall q | q in t.live
      ensures RequestOk(t, o, q)
    {
      assert RequestOk(s, o, q);
      if s.live[q].body.InFile? { assert KeyOk(s, o, s.live[q].body.key); }
    }
  }

  lemma AttachKeepsKeys<P>(s: Cache<P>, o: map<Key, Owner>, r: Id)
    requires Safe(s, o) && r in s.live && !s.live[r].attached
    ensures KeysOk(Attach(s, r), o)
  {
    var t := Attach(s, r);
    assert RequestOk(s, o, r);
    forall k ensures KeyOk(t, o, k) { assert KeyOk(s, o, k); }
  }

  lemma AttachSafe<P>(s: Cache<P>, o: map<Key, Owner>, r: Id)
    requires Safe(s, o) && r in s.live && !s.live[r].attached
    ensures Safe(Attach(s, r), o)
  {
    var t := Attach(s, r);
    assert RequestOk(s, o, r);
    AttachKeepsKeys(s, o, r);
    forall x | x in t.waiting ensures TaskOk(t, o, x, Queue) { assert TaskOk(s, o, x, Queue); }
    AttachKeepsRequests(s, o, r);
    AttachKeepsSaves(s, o, r);
  }

  lemma SkipKeepsSaves<P>(s: Cache<P>, o: map<Key, Owner>, r: Id)
    requires Safe(s, o) && Idle(s, r)
    ensures SavesOk(SaveSkip(s, r), o)
  {
    var t, o' := SaveSkip(s, r), o;
    forall q | q in t.saves ensures SaveOk(t, o', q) { assert SaveOk(s, o, q); }
  }

  lemma SkipKeepsKeys<P>(s: Cache<P>, o: map<Key, Owner>, r: Id)
    requires Safe(s, o) && Idle(s, r)
    ensures KeysOk(SaveSkip(s, r), o)
  {
    var t, o' := SaveSkip(s, r), o;
    forall k ensures KeyOk(t, o', k) { assert KeyOk(s, o, k); }
  }

  lemma SkipSafe<P>(s: Cache<P>, o: map<Key, Owner>, r: Id)
    requires Safe(s, o) && Idle(s, r)
    ensures Safe(SaveSkip(s, r), o)
  {
    var t, o' := SaveSkip(s, r), o;
    SkipKeepsKeys(s, o, r);
    forall x | x in t.waiting ensures TaskOk(t, o', x, Queue) { assert TaskOk(s, o, x, Queue); }
    forall q | q in t.live ensures RequestOk(t, o', q) { assert RequestOk(s, o, q); }
    SkipKeepsSaves(s, o, r);
  }

  lemma LookFileSafe<P>(s: Cache<P>, o: map<Key, Owner>, r: Id, key: Key)
    requires Safe(s, o) && Idle(s, r) && s.live[r].body == InFile(key)
    ensures Safe(SaveLook(s, r, key), o)
  {
    var t, o' := SaveLook(s, r, key), o;
    assert RequestOk(s, o, r);
    assert KeyOk(s, o, key);
    forall k ensures KeyOk(t, o', k) { assert KeyOk(s, o, k); }
    forall x | x in t.waiting ensures TaskOk(t, o', x, Queue) { assert TaskOk(s, o, x, Queue); }
    forall q | q in t.live ensures RequestOk(t, o', q) { assert RequestOk(s, o, q); }
    forall q | q in t.saves ensures SaveOk(t, o', q) { assert q != r ==> SaveOk(s, o, q); }
  }

  lemma LookMemoryKeepsSaves<P>(s: Cache<P>, o: map<Key, Owner>, r: Id, key: Key)
    requires Safe(s, o) && Idle(s, r) && s.live[r].body == InMemory && key !in s.used
    ensures SavesOk(SaveLook(s, r, key), o[key := Reserved(r)])
  {
    var t, o' := SaveLook(s, r, key), o[key := Reserved(r)];
    assert KeyOk(s, o, key);
    forall q | q in t.saves ensures SaveOk(t, o', q) { assert q != r ==> SaveOk(s, o, q); }
  }

  lemma LookMemoryKeepsKeys<P>(s: Cache<P>, o: map<Key, Owner>, r: Id, key: Key)
    requires Safe(s, o) && Idle(s, r) && s.live[r].body == InMemory && key !in s.used
    ensures KeysOk(SaveLook(s, r, key), o[key := Reserved(r)])
  {
    var t, o' := SaveLook(s, r, key), o[key := Reserved(r)];
    assert KeyOk(s, o, key);
    forall k ensures KeyOk(t, o', k) { assert KeyOk(s, o, k); }
  }

  lemma LookMemorySafe<P>(s: Cache<P>, o: map<Key, Owner>, r: Id, key: Key)
    requires Safe(s, o) && Idle(s, r) && s.live[r].body == InMemory && key !in s.used
    ensures Safe(SaveLook(s, r, key), o[key := Reserved(r)])
  {
    var t, o' := SaveLook(s, r, key), o[key := Reserved(r)];
    assert KeyOk(s, o, key);
    LookMemoryKeepsKeys(s, o, r, key);
    forall x | x in t.waiting ensures TaskOk(t, o', x, Queue) { assert TaskOk(s, o, x, Queue); }
    forall q | q in t.live ensures RequestOk(t, o', q) { assert RequestOk(s, o, q); }
    LookMemoryKeepsSaves(s, o, r, key);
  }

  lemma GiveUpSafe<P>(s: Cache<P>, o: map<Key, Owner>, r: Id)
    requires Safe(s, o) && At(s, r, Looked) && Exhausted(s, s.saves[r])
    ensures Safe(SaveGiveUp(s, r), o)
  {
    var t, o' := SaveGiveUp(s, r), o;
    assert SaveOk(s, o, r);
    forall k ensures KeyOk(t, o', k) { assert KeyOk(s, o, k); }
    forall x | x in t.waiting ensures TaskOk(t, o', x, Queue) { assert TaskOk(s, o, x, Queue); }
    forall q | q in t.live ensures RequestOk(t, o', q) { assert RequestOk(s, o, q); }
    forall q | q in t.saves ensures SaveOk(t, o', q) { assert SaveOk(s, o, q); }
  }

  lemma SpoolKeepsSaves<P>(s: Cache<P>, o: map<Key, Owner>, r: Id)
    requires Safe(s, o) && At(s, r, Looked) && s.live[r].body.InMemory?
    ensures SavesOk(SaveSpool(s, r), o[s.saves[r].key := Spool(r)])
  {
    var t, o' := SaveSpool(s, r), o[s.saves[r].key := Spool(r)];
    assert SaveOk(s, o, r);
    assert KeyOk(s, o, s.saves[r].key);
    forall q | q in t.saves ensures SaveOk(t, o', q) { assert SaveOk(s, o, q); }
  }

  lemma SpoolSafe<P>(s: Cache<P>, o: map<Key, Owner>, r: Id)
    requires Safe(s, o) && At(s, r, Looked) && s.live[r].body.InMemory?
    ensures Safe(SaveSpool(s, r), o[s.saves[r].key := Spool(r)])
  {
    var t, o' := SaveSpool(s, r), o[s.saves[r].key := Spool(r)];
    assert SaveOk(s, o, r);
    assert KeyOk(s, o, s.saves[r].key);
    forall k ensures KeyOk(t, o', k) { assert KeyOk(s, o, k); }
    forall x | x in t.waiting ensures TaskOk(t, o', x, Queue) { assert TaskOk(s, o, x, Queue); }
    forall q | q in t.live ensures RequestOk(t, o', q) { assert RequestOk(s, o, q); }
    SpoolKeepsSaves(s, o, r);
  }

  lemma LinkKeepsSaves<P>(s: Cache<P>, o: map<Key, Owner>, r: Id, link: Key)
    requires Safe(s, o) && MayLink(s, r) && link !in s.used && s.saves[r].key in s.names
    ensures SavesOk(SaveLink(s, r, link), o[link := Link(r)])
  {
    var t, o' := SaveLink(s, r, link), o[link := Link(r)];
    assert SaveOk(s, o, r);
    assert RequestOk(s, o, r);
    assert KeyOk(s, o, link);
    forall q | q in t.saves ensures SaveOk(t, o', q) { assert SaveOk(s, o, q); }
  }

  lemma LinkKeepsKeys<P>(s: Cache<P>, o: map<Key, Owner>, r: Id, link: Key)
    requires Safe(s, o) && MayLink(s, r) && link !in s.used && s.saves[r].key in s.names
    ensures KeysOk(SaveLink(s, r, link), o[link := Link(r)])
  {
    var t, o' := SaveLink(s, r, link), o[link := Link(r)];
    assert SaveOk(s, o, r);
    assert RequestOk(s, o, r);
    assert KeyOk(s, o, link);
    forall k ensures KeyOk(t, o', k) { assert KeyOk(s, o, k); }
  }

  lemma LinkSafe<P>(s: Cache<P>, o: map<Key, Owner>, r: Id, link: Key)
    requires Safe(s, o) && MayLink(s, r) && link !in s.used && s.saves[r].key in s.names
    ensures Safe(SaveLink(s, r, link), o[link := Link(r)])
  {
    var t, o' := SaveLink(s, r, link), o[link := Link(r)];
    assert SaveOk(s, o, r);
    assert RequestOk(s, o, r);
    assert KeyOk(s, o, link);
    LinkKeepsKeys(s, o, r, link);
    forall x | x in t.waiting ensures TaskOk(t, o', x, Queue) { assert TaskOk(s, o, x, Queue); }
    forall q | q in t.live ensures RequestOk(t, o', q) { assert RequestOk(s, o, q); }
    LinkKeepsSaves(s, o, r, link);
  }

  lemma LinkFailsKeepsSaves<P>(s: Cache<P>, o: map<Key, Owner>, r: Id)
    requires Safe(s, o) && MayLink(s, r)
    ensures SavesOk(SaveLinkFails(s, r), if s.saves[r].spool then o - {s.saves[r].key} else o)
  {
    var t, o' := SaveLinkFails(s, r), if s.saves[r].spool then o - {s.saves[r].key} else o;
    assert SaveOk(s, o, r);
    forall q | q in t.saves ensures SaveOk(t, o', q) { assert SaveOk(s, o, q); }
  }

  lemma LinkFailsKeepsKeys<P>(s: Cache<P>, o: map<Key, Owner>, r: Id)
    requires Safe(s, o) && MayLink(s, r)
    ensures KeysOk(SaveLinkFails(s, r), if s.saves[r].spool then o - {s.saves[r].key} else o)
  {
    var t, o' := SaveLinkFails(s, r), if s.saves[r].spool then o - {s.saves[r].key} else o;
    assert SaveOk(s, o, r);
    forall k ensures KeyOk(t, o', k) { assert KeyOk(s, o, k); }
  }

  lemma LinkFailsSafe<P>(s: Cache<P>, o: map<Key, Owner>, r: Id)
    requires Safe(s, o) && MayLink(s, r)
    ensures Safe(SaveLinkFails(s, r), if s.saves[r].spool then o - {s.saves[r].key} else o)
  {
    var t, o' := SaveLinkFails(s, r), if s.saves[r].spool then o - {s.saves[r].key} else o;
    assert SaveOk(s, o, r);
    LinkFailsKeepsKeys(s, o, r);
    forall x | x in t.waiting ensures TaskOk(t, o', x, Queue) { assert TaskOk(s, o, x, Queue); }
    forall q | q in t.live ensures RequestOk(t, o', q) { assert RequestOk(s, o, q); }
    LinkFailsKeepsSaves(s, o, r);
  }

  lemma ReleaseKeepsSaves<P>(s: Cache<P>, o: map<Key, Owner>, r: Id)
    requires Safe(s, o) && At(s, r, Linked) && s.saves[r].spool
    ensures SavesOk(SaveRelease(s, r), o - {s.saves[r].key})
  {
    var t, o' := SaveRelease(s, r), o - {s.saves[r].key};
    assert SaveOk(s, o, r);
    forall q | q in t.saves ensures SaveOk(t, o', q) { assert SaveOk(s, o, q); }
  }

  lemma ReleaseSafe<P>(s: Cache<P>, o: map<Key, Owner>, r: Id)
    requires Safe(s, o) && At(s, r, Linked) && s.saves[r].spool
    ensures Safe(SaveRelease(s, r), o - {s.saves[r].key})
  {
    var t, o' := SaveRelease(s, r), o - {s.saves[r].key};
    assert SaveOk(s, o, r);
    forall k ensures KeyOk(t, o', k) { assert KeyOk(s, o, k); }
    forall x | x in t.waiting ensures TaskOk(t, o', x, Queue) { assert TaskOk(s, o, x, Queue); }
    forall q | q in t.live ensures RequestOk(t, o', q) { assert RequestOk(s, o, q); }
    ReleaseKeepsSaves(s, o, r);
  }

  lemma EraseSafe<P>(s: Cache<P>, o: map<Key, Owner>, r: Id)
    requires Safe(s, o) && At(s, r, Linked) && s.saves[r].found && !s.saves[r].spool
    ensures Safe(SaveErase(s, r), o)
  {
    var t, o' := SaveErase(s, r), o;
    assert SaveOk(s, o, r);
    forall k ensures KeyOk(t, o', k) { assert KeyOk(s, o, k); }
    forall x | x in t.waiting ensures TaskOk(t, o', x, Queue) { assert TaskOk(s, o, x, Queue); }
    forall q | q in t.live ensures RequestOk(t, o', q) { assert RequestOk(s, o, q); }
    forall q | q in t.saves ensures SaveOk(t, o', q) { assert SaveOk(s, o, q); }
  }

  lemma QueueKeepsSaves<P>(s: Cache<P>, o: map<Key, Owner>, r: Id, delay: nat)
    requires Safe(s, o) && MayQueue(s, r)
    ensures SavesOk(SaveQueue(s, r, delay), o[s.saves[r].link := Queue])
  {
    var t, o' := SaveQueue(s, r, delay), o[s.saves[r].link := Queue];
    assert SaveOk(s, o, r);
    forall q | q in t.saves ensures SaveOk(t, o', q) { assert SaveOk(s, o, q); }
  }

  lemma QueueSafe<P>(s: Cache<P>, o: map<Key, Owner>, r: Id, delay: nat)
    requires Safe(s, o) && MayQueue(s, r)
    ensures Safe(SaveQueue(s, r, delay), o[s.saves[r].link := Queue])
  {
    var t, o' := SaveQueue(s, r, delay), o[s.saves[r].link := Queue];
    var task := TaskOf(s, r, delay);
    assert SaveOk(s, o, r);
    forall x | x in s.waiting ensures x.key != task.key { assert TaskOk(s, o, x, Queue); }
    InsertKeeps(s.waiting, task);
    InsertMember(s.waiting, task, task);
    forall k
      ensures KeyOk(t, o', k)
    {
      assert KeyOk(s, o, k);
      if k in o && o[k].Queue? {
        var x :| x in s.waiting && x.key == k;
        InsertMember(s.waiting, task, x);
      }
    }
    forall x | x in t.waiting ensures TaskOk(t, o', x, Queue) { InsertMember(s.waiting, task, x); assert x != task ==> TaskOk(s, o, x, Queue); }
    forall q | q in t.live ensures RequestOk(t, o', q) { assert RequestOk(s, o, q); }
    QueueKeepsSaves(s, o, r, delay);
  }

  lemma PopSafe<P>(s: Cache<P>, o: map<Key, Owner>)
    requires Safe(s, o) && s.popped.None? && |s.waiting| > 0
    ensures Safe(Pop(s), o[s.waiting[0].key := Handler])
  {
    var t, o' := Pop(s), o[s.waiting[0].key := Handler];
    assert TaskOk(s, o, s.waiting[0], Queue);
    assert s.waiting == [s.waiting[0]] + s.waiting[1..];
    forall k ensures KeyOk(t, o', k) { assert KeyOk(s, o, k); }
    forall x | x in t.waiting ensures TaskOk(t, o', x, Queue) { assert TaskOk(s, o, x, Queue); }
    forall q | q in t.live ensures RequestOk(t, o', q) { assert RequestOk(s, o, q); }
    forall q | q in t.saves ensures SaveOk(t, o', q) { assert SaveOk(s, o, q); }
  }

  lemma RestartKeepsSaves<P>(s: Cache<P>, o: map<Key, Owner>, r: Id)
    requires Safe(s, o) && s.popped.Some? && r !in s.live
    ensures SavesOk(Restart(s, r), o[s.popped.value.key := Held(r)])
  {
    var t, o' := Restart(s, r), o[s.popped.value.key := Held(r)];
    assert TaskOk(s, o, s.popped.value, Handler);
    assert KeyOk(s, o, s.popped.value.key);
    forall q | q in t.saves ensures SaveOk(t, o', q) { assert SaveOk(s, o, q); }
  }

  lemma RestartSafe<P>(s: Cache<P>, o: map<Key, Owner>, r: Id)
    requires Safe(s, o) && s.popped.Some? && r !in s.live
    ensures Safe(Restart(s, r), o[s.popped.value.key := Held(r)])
  {
    var t, o' := Restart(s, r), o[s.popped.value.key := Held(r)];
    assert TaskOk(s, o, s.popped.value, Handler);
    assert KeyOk(s, o, s.popped.value.key);
    forall k ensures KeyOk(t, o', k) { assert KeyOk(s, o, k); }
    forall x | x in t.waiting ensures TaskOk(t, o', x, Queue) { assert TaskOk(s, o, x, Queue); }
    forall q | q in t.live ensures RequestOk(t, o', q) { assert q != r ==> RequestOk(s, o, q); }
    RestartKeepsSaves(s, o, r);
  }

  lemma DropKeepsSaves<P>(s: Cache<P>, o: map<Key, Owner>, r: Id)
    requires Safe(s, o) && r in s.live && r !in s.saves
    ensures SavesOk(Drop(s, r), if s.live[r].body.InFile? then o - {s.live[r].body.key} else o)
  {
    var t, o' := Drop(s, r), if s.live[r].body.InFile? then o - {s.live[r].body.key} else o;
    assert RequestOk(s, o, r);
    forall q | q in t.saves ensures SaveOk(t, o', q) { assert SaveOk(s, o, q); }
  }

  lemma DropKeepsKeys<P>(s: Cache<P>, o: map<Key, Owner>, r: Id)
    requires Safe(s, o) && r in s.live && r !in s.saves
    ensures KeysOk(Drop(s, r), if s.live[r].body.InFile? then o - {s.live[r].body.key} else o)
  {
    var t, o' := Drop(s, r), if s.live[r].body.InFile? then o - {s.live[r].body.key} else o;
    assert RequestOk(s, o, r);
    forall k ensures KeyOk(t, o', k) { assert KeyOk(s, o, k); }
  }

  lemma DropSafe<P>(s: Cache<P>, o: map<Key, Owner>, r: Id)
    requires Safe(s, o) && r in s.live && r !in s.saves
    ensures Safe(Drop(s, r), if s.live[r].body.InFile? then o - {s.live[r].body.key} else o)
  {
    var t, o' := Drop(s, r), if s.live[r].body.InFile? then o - {s.live[r].body.key} else o;
    assert RequestOk(s, o, r);
    DropKeepsKeys(s, o, r);
    forall x | x in t.waiting ensures TaskOk(t, o', x, Queue) { assert TaskOk(s, o, x, Queue); }
    forall q | q in t.live ensures RequestOk(t, o', q) { assert RequestOk(s, o, q); }
    DropKeepsSaves(s, o, r);
  }

  /** Every step keeps the cache safe, for some owners of the names. */
  lemma NextSafe<P>(s: Cache<P>, o: map<Key, Owner>, step: Step<P>, t: Cache<P>) returns (o': map<Key, Owner>)
    requires Safe(s, o) && Next(s, step, t)
    ensures Safe(t, o')
  {
    o' := o;
    match step
    case DoArrive(r, p) => ArriveSafe(s, o, r, p);
    case DoOpen(r, p, key) => OpenSafe(s, o, r, p, key); o' := o[key := Held(r)];
    case DoAttach(r) => AttachSafe(s, o, r);
    case DoSkip(r) => SkipSafe(s, o, r);
    case DoLook(r, key) =>
      if s.live[r].body.InFile? {
        LookFileSafe(s, o, r, key);
      } else {
        LookMemorySafe(s, o, r, key);
        o' := o[key := Reserved(r)];
      }
    case DoGiveUp(r) => GiveUpSafe(s, o, r);
    case DoSpool(r) => SpoolSafe(s, o, r); o' := o[s.saves[r].key := Spool(r)];
    case DoLink(r, link) => LinkSafe(s, o, r, link); o' := o[link := Link(r)];
    case DoLinkFails(r) => LinkFailsSafe(s, o, r); o' := if s.saves[r].spool then o - {s.saves[r].key} else o;
    case DoRelease(r) => ReleaseSafe(s, o, r); o' := o - {s.saves[r].key};
    case DoErase(r) => EraseSafe(s, o, r);
    case DoQueue(r, delay) => QueueSafe(s, o, r, delay); o' := o[s.saves[r].link := Queue];
    case DoPop => PopSafe(s, o); o' := o[s.waiting[0].key := Handler];
    case DoRestart(r) => RestartSafe(s, o, r); o' := o[s.popped.value.key := Held(r)];
    case DoDrop(r) => DropSafe(s, o, r); o' := if s.live[r].body.InFile? then o - {s.live[r].body.key} else o;
    case DoTick => TickSafe(s, o);
  }

  lemma TickSafe<P>(s: Cache<P>, o: map<Key, Owner>)
    requires Safe(s, o)
    ensures Safe(s.(now := s.now + 1), o)
  {
    var t := s.(now := s.now + 1);
    forall k ensures KeyOk(t, o, k) { assert KeyOk(s, o, k); }
    forall x | x in t.waiting ensures TaskOk(t, o, x, Queue) { assert TaskOk(s, o, x, Queue); }
    forall q | q in t.live ensures RequestOk(t, o, q) { assert RequestOk(s, o, q); }
    forall q | q in t.saves ensures SaveOk(t, o, q) { assert SaveOk(s, o, q); }
  }

  // ----- retries -----

  ghost predicate TaskCounted<P>(s: Cache<P>, t: Task<P>) {
    1 <= t.retries <= s.maxRetries && t.runs == t.retries + t.lost && (!t.again ==> t.lost == 0)
  }

  ghost predicate RequestCounted<P>(s: Cache<P>, r: Id)
    requires r in s.live
  {
    var q := s.live[r];
    && (r in s.saves ==> q.saves > 0)
    && q.runs <= s.maxRetries + q.lost
    && (!q.again ==> q.saves <= 1 && q.runs <= s.maxRetries)
    && (!q.again && q.saves == 0 ==> q.lost == 0)
    && (q.body.InMemory? ==> q.runs == 0 && q.lost == 0)
    && (q.body.InFile? && q.saves == 0 ==> q.body.key in s.active)
    && (q.body.InFile? ==> Count(s, q.body.key) + q.lost == q.runs)
  }

  ghost predicate SaveCounted<P>(s: Cache<P>, r: Id)
    requires r in s.saves
  {
    var v := s.saves[r];
    && s.maxRetries > 0
    && (v.found ==> v.retries <= s.maxRetries)
    && (v.stage != Looked ==> !Exhausted(s, v))
    && (r in s.live ==> Seen(v) + v.lost == s.live[r].runs)
    && (r in s.live && !s.live[r].again ==> v.lost == 0)
    && (r in s.live && s.live[r].body.InFile? && !v.found ==> s.live[r].again && s.live[r].saves > 1)
  }

  /** Retry counts in range; and the count in use and the dropped ones add up to the number of re-runs. */
  ghost predicate Counted<P>(s: Cache<P>) {
    && (forall k :: k in s.active ==> s.active[k] <= s.maxRetries)
    && (forall t :: t in s.waiting ==> TaskCounted(s, t))
    && (s.popped.Some? ==> TaskCounted(s, s.popped.value))
    && (forall r :: r in s.live ==> RequestCounted(s, r))
    && (forall r :: r in s.saves ==> SaveCounted(s, r))
  }

  lemma ArriveCounted<P>(s: Cache<P>, o: map<Key, Owner>, r: Id, p: P)
    requires Safe(s, o) && Counted(s) && r !in s.live
    ensures Counted(Arrive(s, r, p))
  {
    var t := Arrive(s, r, p);
    assert r in s.saves ==> SaveOk(s, o, r);
    forall x | x in t.waiting ensures TaskCounted(t, x) { assert TaskCounted(s, x); }
    forall q | q in t.live ensures RequestCounted(t, q) { assert q != r ==> RequestCounted(s, q); assert q in s.live ==> RequestOk(s, o, q); }
    forall q | q in t.saves ensures SaveCounted(t, q) { assert SaveCounted(s, q); assert q in s.saves ==> SaveOk(s, o, q); }
  }

  lemma OpenCounted<P>(s: Cache<P>, o: map<Key, Owner>, r: Id, p: P, key: Key)
    requires Safe(s, o) && Counted(s) && r !in s.live && key !in s.used
    ensures Counted(Open(s, r, p, key))
  {
    var t := Open(s, r, p, key);
    assert KeyOk(s, o, key);
    assert r in s.saves ==> SaveOk(s, o, r);
    forall x | x in t.waiting ensures TaskCounted(t, x) { assert TaskCounted(s, x); }
    forall q | q in t.live ensures RequestCounted(t, q) { assert q != r ==> RequestCounted(s, q); assert q in s.live ==> RequestOk(s, o, q); }
    forall q | q in t.saves ensures SaveCounted(t, q) { assert SaveCounted(s, q); assert q in s.saves ==> SaveOk(s, o, q); }
  }

  lemma AttachCounted<P>(s: Cache<P>, o: map<Key, Owner>, r: Id)
    requires Safe(s, o) && Counted(s) && r in s.live && !s.live[r].attached
    ensures Counted(Attach(s, r))
  {
    AttachesOnly(s, r);
    OnlyAttached(s, r, Attach(s, r));
  }

  lemma AttachesOnly<P>(s: Cache<P>, r: Id)
    requires r in s.live
    ensures var t := Attach(s, r);
      && t.active == s.active && t.waiting == s.waiting && t.popped == s.popped && t.saves == s.saves
      && t.live == s.live[r := s.live[r].(attached := true)] && t.maxRetries == s.maxRetries
  {
  }

  lemma OnlyAttached<P>(s: Cache<P>, r: Id, t: Cache<P>)
    requires Counted(s) && r in s.live && t.live == s.live[r := s.live[r].(attached := true)] && t.maxRetries == s.maxRetries
    requires t.active == s.active && t.waiting == s.waiting && t.popped == s.popped && t.saves == s.saves
    ensures Counted(t)
  {
    forall x | x in t.waiting ensures TaskCounted(t, x) { assert TaskCounted(s, x); }
    forall q | q in t.live ensures RequestCounted(t, q) { assert RequestCounted(s, q); }
    forall q | q in t.saves ensures SaveCounted(t, q) { assert SaveCounted(s, q); }
  }

  lemma SkippedRequest<P>(s: Cache<P>, o: map<Key, Owner>, r: Id, q: Id)
    requires Safe(s, o) && Counted(s) && Idle(s, r) && q in s.live
    ensures RequestCounted(SaveSkip(s, r), q)
  {
    assert RequestOk(s, o, r) && RequestOk(s, o, q) && RequestCounted(s, q);
  }

  lemma SkipCounted<P>(s: Cache<P>, o: map<Key, Owner>, r: Id)
    requires Safe(s, o) && Counted(s) && Idle(s, r)
    ensures Counted(SaveSkip(s, r))
  {
    var t := SaveSkip(s, r);
    forall x | x in t.waiting ensures TaskCounted(t, x) { assert TaskCounted(s, x); }
    forall q | q in t.live ensures RequestCounted(t, q) { SkippedRequest(s, o, r, q); }
    forall q | q in t.saves ensures SaveCounted(t, q) { assert SaveCounted(s, q); assert q in s.saves ==> SaveOk(s, o, q); }
  }

  lemma LookedRequest<P>(s: Cache<P>, o: map<Key, Owner>, r: Id, key: Key, q: Id)
    requires Safe(s, o) && Counted(s) && Idle(s, r) && q in s.live
    ensures RequestCounted(SaveLook(s, r, key), q)
  {
    assert RequestOk(s, o, q) && RequestCounted(s, q);
  }

  lemma LookedSave<P>(s: Cache<P>, o: map<Key, Owner>, r: Id, key: Key, q: Id)
    requires Safe(s, o) && Counted(s) && Idle(s, r) && s.maxRetries > 0 && KeyFor(s, r, key) && (q in s.saves || q == r)
    ensures SaveCounted(SaveLook(s, r, key), q)
  {
    assert RequestCounted(s, r) && KeyOk(s, o, key) && RequestOk(s, o, r);
    if q != r {
      assert SaveCounted(s, q) && SaveOk(s, o, q);
    }
  }

  lemma LookCounted<P>(s: Cache<P>, o: map<Key, Owner>, r: Id, key: Key)
    requires Safe(s, o) && Counted(s) && Idle(s, r) && s.maxRetries > 0 && KeyFor(s, r, key)
    ensures Counted(SaveLook(s, r, key))
  {
    var t := SaveLook(s, r, key);
    forall x | x in t.waiting ensures TaskCounted(t, x) { assert TaskCounted(s, x); }
    forall q | q in t.live ensures RequestCounted(t, q) { LookedRequest(s, o, r, key, q); }
    forall q | q in t.saves ensures SaveCounted(t, q) { LookedSave(s, o, r, key, q); }
  }

  lemma EndCounted<P>(s: Cache<P>, o: map<Key, Owner>, r: Id)
    requires Safe(s, o) && Counted(s) && r in s.saves && r in s.live && s.saves[r].found
    ensures Counted(EraseActive(s, r, s.saves[r].key).(saves := s.saves - {r}))
  {
    var t := EraseActive(s, r, s.saves[r].key).(saves := s.saves - {r});
    assert SaveOk(s, o, r);
    assert RequestCounted(s, r);
    assert RequestOk(s, o, r);
    forall x | x in t.waiting ensures TaskCounted(t, x) { assert TaskCounted(s, x); }
    forall q | q in t.live ensures RequestCounted(t, q) { assert RequestCounted(s, q); assert RequestOk(s, o, q); }
    forall q | q in t.saves ensures SaveCounted(t, q) { assert SaveCounted(s, q); assert SaveOk(s, o, q); }
  }

  lemma QueueCounted<P>(s: Cache<P>, o: map<Key, Owner>, r: Id, delay: nat)
    requires Safe(s, o) && Counted(s) && MayQueue(s, r)
    ensures Counted(SaveQueue(s, r, delay))
  {
    var t := SaveQueue(s, r, delay);
    var task := TaskOf(s, r, delay);
    assert SaveOk(s, o, r) && SaveCounted(s, r) && RequestCounted(s, r);
    forall x | x in t.waiting ensures x == task || x in s.waiting { InsertMember(s.waiting, task, x); }
    forall x | x in t.waiting ensures TaskCounted(t, x) { assert x != task ==> TaskCounted(s, x); }
    forall q | q in t.live ensures RequestCounted(t, q) { assert RequestCounted(s, q); assert q in s.live ==> RequestOk(s, o, q); }
    forall q | q in t.saves ensures SaveCounted(t, q) { assert SaveCounted(s, q); assert q in s.saves ==> SaveOk(s, o, q); }
  }

  lemma RestartCounted<P>(s: Cache<P>, o: map<Key, Owner>, r: Id)
    requires Safe(s, o) && Counted(s) && s.popped.Some? && r !in s.live
    ensures Counted(Restart(s, r))
  {
    var t := Restart(s, r);
    assert TaskOk(s, o, s.popped.value, Handler);
    assert r in s.saves ==> SaveOk(s, o, r);
    assert KeyOk(s, o, s.popped.value.key);
    forall x | x in t.waiting ensures TaskCounted(t, x) { assert TaskCounted(s, x); }
    forall q | q in t.live ensures RequestCounted(t, q) { assert q != r ==> RequestCounted(s, q); assert q in s.live ==> RequestOk(s, o, q); }
    forall q | q in t.saves ensures SaveCounted(t, q) { assert SaveCounted(s, q); assert q in s.saves ==> SaveOk(s, o, q); }
  }

  /** Steps that touch neither counts nor requests. */
  lemma QuietCounted<P>(s: Cache<P>, t: Cache<P>)
    requires Counted(s) && t.maxRetries == s.maxRetries
    requires t.active == s.active && t.waiting == s.waiting && t.popped == s.popped
    requires forall r :: r in t.live ==> r in s.live && t.live[r] == s.live[r]
    requires forall r :: r in t.saves ==> r in s.saves && r in t.live && SaveCounted(t, r)
    ensures Counted(t)
  {
    forall x | x in t.waiting ensures TaskCounted(t, x) { assert TaskCounted(s, x); }
    forall q | q in t.live ensures RequestCounted(t, q) { assert RequestCounted(s, q); }
  }

  lemma SpoolCounted<P>(s: Cache<P>, o: map<Key, Owner>, r: Id)
    requires Safe(s, o) && Counted(s) && At(s, r, Looked) && !Exhausted(s, s.saves[r])
    ensures Counted(SaveSpool(s, r))
  {
    var t := SaveSpool(s, r);
    forall q | q in t.saves
      ensures q in s.saves && q in t.live && SaveCounted(t, q)
    {
      assert SaveOk(s, o, q) && SaveCounted(s, q);
    }
    QuietCounted(s, t);
  }

  lemma LinkCounted<P>(s: Cache<P>, o: map<Key, Owner>, r: Id, link: Key)
    requires Safe(s, o) && Counted(s) && MayLink(s, r) && s.saves[r].key in s.names
    ensures Counted(SaveLink(s, r, link))
  {
    var t := SaveLink(s, r, link);
    forall q | q in t.saves
      ensures q in s.saves && q in t.live && SaveCounted(t, q)
    {
      assert SaveOk(s, o, q) && SaveCounted(s, q);
    }
    QuietCounted(s, t);
  }

  lemma ReleaseCounted<P>(s: Cache<P>, o: map<Key, Owner>, r: Id)
    requires Safe(s, o) && Counted(s) && At(s, r, Linked)
    ensures Counted(SaveRelease(s, r))
  {
    var t := SaveRelease(s, r);
    forall q | q in t.saves
      ensures q in s.saves && q in t.live && SaveCounted(t, q)
    {
      assert SaveOk(s, o, q) && SaveCounted(s, q);
    }
    QuietCounted(s, t);
  }

  lemma DropCounted<P>(s: Cache<P>, o: map<Key, Owner>, r: Id)
    requires Safe(s, o) && Counted(s) && r in s.live && r !in s.saves
    ensures Counted(Drop(s, r))
  {
    var t := Drop(s, r);
    forall q | q in t.saves
      ensures q in s.saves && q in t.live && SaveCounted(t, q)
    {
      assert SaveOk(s, o, q) && SaveCounted(s, q);
    }
    QuietCounted(s, t);
  }

  lemma LinkFailsCounted<P>(s: Cache<P>, o: map<Key, Owner>, r: Id)
    requires Safe(s, o) && Counted(s) && MayLink(s, r)
    ensures Counted(SaveLinkFails(s, r))
  {
    var ended := s.(saves := s.saves - {r});
    if s.saves[r].found {
      EndCounted(s, o, r);
      ended := EraseActive(s, r, s.saves[r].key).(saves := s.saves - {r});
    } else {
      forall q | q in ended.saves
        ensures q in ended.live && SaveCounted(ended, q)
      {
        assert SaveOk(s, o, q) && SaveCounted(s, q);
      }
      QuietCounted(s, ended);
    }
    var t := SaveLinkFails(s, r);
    forall q | q in t.saves
      ensures q in t.live && SaveCounted(t, q)
    {
      assert SaveOk(s, o, q) && SaveCounted(ended, q);
    }
    QuietCounted(ended, t);
  }

  lemma EraseCounted<P>(s: Cache<P>, o: map<Key, Owner>, r: Id)
    requires Safe(s, o) && Counted(s) && At(s, r, Linked) && s.saves[r].found && !s.saves[r].spool
    ensures Counted(SaveErase(s, r))
  {
    var t := SaveErase(s, r);
    assert SaveOk(s, o, r) && RequestCounted(s, r) && RequestOk(s, o, r);
    forall x | x in t.waiting ensures TaskCounted(t, x) { assert TaskCounted(s, x); }
    forall q | q in t.live ensures RequestCounted(t, q) { assert RequestCounted(s, q) && RequestOk(s, o, q); }
    forall q | q in t.saves ensures SaveCounted(t, q) { assert SaveCounted(s, q); }
  }

  lemma PopTickCounted<P>(s: Cache<P>)
    requires Counted(s)
    ensures s.popped.None? && |s.waiting| > 0 ==> Counted(Pop(s))
    ensures Counted(s.(now := s.now + 1))
  {
    var t := s.(now := s.now + 1);
    forall q | q in t.saves ensures SaveCounted(t, q) { assert SaveCounted(s, q); }
    forall q | q in t.live ensures RequestCounted(t, q) { assert RequestCounted(s, q); }
    forall x | x in t.waiting ensures TaskCounted(t, x) { assert TaskCounted(s, x); }
    if s.popped.None? && |s.waiting| > 0 {
      var u := Pop(s);
      forall q | q in u.saves ensures SaveCounted(u, q) { assert SaveCounted(s, q); }
      forall q | q in u.live ensures RequestCounted(u, q) { assert RequestCounted(s, q); }
      forall x | x in u.waiting ensures TaskCounted(u, x) { assert TaskCounted(s, x); }
      assert TaskCounted(s, s.waiting[0]);
    }
  }

  lemma NextCounted<P>(s: Cache<P>, o: map<Key, Owner>, step: Step<P>, t: Cache<P>)
    requires Safe(s, o) && Counted(s) && Next(s, step, t)
    ensures Counted(t)
  {
    match step
    case DoArrive(r, p) => ArriveCounted(s, o, r, p);
    case DoOpen(r, p, key) => OpenCounted(s, o, r, p, key);
    case DoAttach(r) => AttachCounted(s, o, r);
    case DoSkip(r) => SkipCounted(s, o, r);
    case DoLook(r, key) => LookCounted(s, o, r, key);
    case DoGiveUp(r) => EndCounted(s, o, r);
    case DoSpool(r) => SpoolCounted(s, o, r);
    case DoLink(r, link) => LinkCounted(s, o, r, link);
    case DoLinkFails(r) => LinkFailsCounted(s, o, r);
    case DoRelease(r) => ReleaseCounted(s, o, r);
    case DoErase(r) => EraseCounted(s, o, r);
    case DoQueue(r, delay) => QueueCounted(s, o, r, delay);
    case DoPop => PopTickCounted(s);
    case DoRestart(r) => RestartCounted(s, o, r);
    case DoDrop(r) => DropCounted(s, o, r);
    case DoTick => PopTickCounted(s);
  }

  // ----- every run -----

  /** At every point of every run the names have owners that make the cache safe, and counts are right. */
  lemma {:induction false} RunSafe<P>(states: seq<Cache<P>>, steps: seq<Step<P>>, k: nat) returns (o: map<Key, Owner>)
    requires Run(states, steps) && k < |states|
    ensures Safe(states[k], o) && Counted(states[k])
  {
    if k == 0 {
      o := map[];
    } else {
      var before := RunSafe(states, steps, k - 1);
      assert Next(states[k - 1], steps[k - 1], states[k]);
      o := NextSafe(states[k - 1], before, steps[k - 1], states[k]);
      NextCounted(states[k - 1], before, steps[k - 1], states[k]);
    }
  }

  lemma OwnerIsUnique<P>(s: Cache<P>, o: map<Key, Owner>, k: Key, w: Owner)
    requires Safe(s, o) && k in s.names && OwnedBy(s, k, w)
    ensures k in o && o[k] == w
  {
    assert KeyOk(s, o, k);
    match w
    case Queue =>
      var t :| t in s.waiting && t.key == k;
      assert TaskOk(s, o, t, Queue);
    case Handler =>
    case Held(r) => assert RequestOk(s, o, r);
    case Spool(r) => assert SaveOk(s, o, r);
    case Link(r) => assert SaveOk(s, o, r);
    case Reserved(r) =>
  }

  /** Each name in the cache directory has exactly one owner: no file is leaked and none is shared. */
  lemma OneOwnerPerName<P>(states: seq<Cache<P>>, steps: seq<Step<P>>, i: nat, k: Key)
    requires Run(states, steps) && i < |states| && k in states[i].names
    ensures exists w :: OwnedBy(states[i], k, w)
    ensures forall w, v :: OwnedBy(states[i], k, w) && OwnedBy(states[i], k, v) ==> w == v
  {
    var s := states[i];
    var o := RunSafe(states, steps, i);
    assert KeyOk(s, o, k);
    assert OwnedBy(s, k, o[k]);
    forall w | OwnedBy(s, k, w)
      ensures w == o[k]
    {
      OwnerIsUnique(s, o, k, w);
    }
  }

  /**
   A waiting task always names an existing file with the whole request that was saved, no live holder
   and no save in progress can unlink it, and no other task shares it.
   */
  lemma WaitingFilesAreSafe<P>(states: seq<Cache<P>>, steps: seq<Step<P>>, i: nat, j: nat)
    requires Run(states, steps) && i < |states| && j < |states[i].waiting|
    ensures var s, t := states[i], states[i].waiting[j];
      && Holds(s, t.key, t.payload)
      && (forall r :: r in s.live ==> s.live[r].body != InFile(t.key))
      && (forall r :: r in s.saves && s.saves[r].spool ==> s.saves[r].key != t.key)
      && (forall l :: 0 <= l < |s.waiting| && l != j ==> s.waiting[l].key != t.key)
  {
    var s, t := states[i], states[i].waiting[j];
    var o := RunSafe(states, steps, i);
    assert TaskOk(s, o, t, Queue);
    forall r | r in s.live ensures s.live[r].body != InFile(t.key) { assert RequestOk(s, o, r); }
    forall r | r in s.saves && s.saves[r].spool ensures s.saves[r].key != t.key { assert SaveOk(s, o, r); }
  }

  /** The request that is handled again carries what was saved. */
  lemma RestartRestoresTheRequest<P>(states: seq<Cache<P>>, steps: seq<Step<P>>, i: nat)
    requires Run(states, steps) && i < |steps| && steps[i].DoRestart?
    ensures states[i].popped.Some?
    ensures var r, t := steps[i].r, states[i].popped.value;
      r in states[i + 1].live && states[i + 1].live[r] == Request(InFile(t.key), t.payload, true, t.runs, 0, t.lost, t.again)
  {
    var o := RunSafe(states, steps, i);
    assert Next(states[i], steps[i], states[i + 1]);
    assert TaskOk(states[i], o, states[i].popped.value, Handler);
  }

  /** Waiting counts stay in 1..max and active counts in 0..max, in every run. */
  lemma RetryCountsInRange<P>(states: seq<Cache<P>>, steps: seq<Step<P>>, i: nat)
    requires Run(states, steps) && i < |states|
    ensures forall t :: t in states[i].waiting ==> 1 <= t.retries <= states[i].maxRetries
    ensures forall k :: k in states[i].active ==> states[i].active[k] <= states[i].maxRetries
  {
    var o := RunSafe(states, steps, i);
    forall t | t in states[i].waiting ensures 1 <= t.retries <= states[i].maxRetries { assert TaskCounted(states[i], t); }
  }

  /**
   No request is re-run more often than the limit and the counts dropped for it; and as long as each of its handlings
   saved it at most once, it starts with nothing dropped and the limit holds.
   */
  lemma RerunsBounded<P>(states: seq<Cache<P>>, steps: seq<Step<P>>, i: nat, r: Id)
    requires Run(states, steps) && i < |states| && r in states[i].live
    ensures var q := states[i].live[r];
      && q.runs <= states[i].maxRetries + q.lost
      && (!q.again ==> q.runs <= states[i].maxRetries && (q.saves == 0 ==> q.lost == 0))
  {
    var o := RunSafe(states, steps, i);
    assert RequestCounted(states[i], r);
  }

  /** A save goes by a count that is short only in a request that was saved twice in one handling, like every save of a stored request that finds no entry. */
  lemma ShortCountTakesASecondSave<P>(states: seq<Cache<P>>, steps: seq<Step<P>>, i: nat)
    requires Run(states, steps) && i < |steps| && steps[i].DoQueue?
    ensures var s, r := states[i], steps[i].r;
      && r in s.saves && r in s.live
      && (s.saves[r].lost > 0 ==> s.live[r].again)
      && (s.live[r].body.InFile? && !s.saves[r].found ==> s.live[r].saves > 1)
  {
    var o := RunSafe(states, steps, i);
    var s, r := states[i], steps[i].r;
    assert Next(s, steps[i], states[i + 1]);
    assert SaveCounted(s, r);
  }

  /** The count a save goes by and what was dropped before its lookup add up to the re-runs so far. */
  lemma CountsAddUp<P>(states: seq<Cache<P>>, steps: seq<Step<P>>, i: nat, r: Id)
    requires Run(states, steps) && i < |states| && r in states[i].saves
    ensures var s := states[i]; r in s.live && Seen(s.saves[r]) + s.saves[r].lost == s.live[r].runs
  {
    var o := RunSafe(states, steps, i);
    assert SaveOk(states[i], o, r) && SaveCounted(states[i], r);
  }

  // ----- exactly when the limit holds -----

  /** No request is re-run, or queued to be re-run, more often than the limit. */
  ghost predicate Within<P>(s: Cache<P>) {
    && (forall r :: r in s.live ==> s.live[r].runs <= s.maxRetries)
    && (forall t :: t in s.waiting ==> t.runs <= s.maxRetries)
    && (s.popped.Some? ==> s.popped.value.runs <= s.maxRetries)
  }

  /** The count a save goes by and the counts dropped before its lookup reach the limit. */
  predicate Overdue<P>(s: Cache<P>, r: Id) {
    r in s.saves && Seen(s.saves[r]) + s.saves[r].lost >= s.maxRetries
  }

  lemma OverdueBreaks<P>(s: Cache<P>, r: Id, delay: nat, t: Cache<P>)
    requires Counted(s) && Next(s, DoQueue(r, delay), t) && Overdue(s, r)
    ensures !Within(t)
  {
    var task := TaskOf(s, r, delay);
    InsertMember(s.waiting, task, task);
    assert SaveCounted(s, r) && RequestCounted(s, r);
    assert task.runs > s.maxRetries;
  }

  lemma QueueWithin<P>(s: Cache<P>, r: Id, delay: nat)
    requires Counted(s) && Within(s) && MayQueue(s, r) && !Overdue(s, r)
    ensures Within(SaveQueue(s, r, delay))
  {
    var t, task := SaveQueue(s, r, delay), TaskOf(s, r, delay);
    assert SaveCounted(s, r) && RequestCounted(s, r);
    forall x | x in t.waiting ensures x.runs <= t.maxRetries { InsertMember(s.waiting, task, x); }
  }

  /** Nothing is queued or re-run. */
  ghost predicate Quiet<P>(s: Cache<P>, t: Cache<P>) {
    && t.maxRetries == s.maxRetries && t.waiting == s.waiting && t.popped == s.popped
    && forall r :: r in t.live ==> t.live[r].runs == 0 || (r in s.live && t.live[r].runs == s.live[r].runs)
  }

  predicate Moves<P>(step: Step<P>) { step.DoQueue? || step.DoPop? || step.DoRestart? }

  lemma OtherSteps<P>(s: Cache<P>, step: Step<P>, t: Cache<P>)
    requires Next(s, step, t) && !Moves(step)
    ensures Quiet(s, t)
  {
  }

  lemma ReleaseWithin<P>(s: Cache<P>)
    requires Within(s)
    ensures |s.waiting| > 0 ==> Within(Pop(s))
    ensures s.popped.Some? ==> forall r :: r !in s.live ==> Within(Restart(s, r))
  {
    if |s.waiting| > 0 {
      assert s.waiting[0] in s.waiting;
    }
  }

  lemma MovesWithin<P>(s: Cache<P>, step: Step<P>, t: Cache<P>)
    requires Counted(s) && Within(s) && Next(s, step, t) && Moves(step) && (step.DoQueue? ==> !Overdue(s, step.r))
    ensures Within(t)
  {
    if step.DoQueue? {
      QueueWithin(s, step.r, step.delay);
    } else {
      ReleaseWithin(s);
    }
  }

  lemma NextWithin<P>(s: Cache<P>, step: Step<P>, t: Cache<P>)
    requires Counted(s) && Within(s) && Next(s, step, t) && (step.DoQueue? ==> !Overdue(s, step.r))
    ensures Within(t)
  {
    if Moves(step) {
      MovesWithin(s, step, t);
    } else {
      OtherSteps(s, step, t);
    }
  }

  lemma {:induction false} RunWithin<P>(states: seq<Cache<P>>, steps: seq<Step<P>>, k: nat)
    requires Run(states, steps) && k < |states|
    requires forall i :: 0 <= i < |steps| && steps[i].DoQueue? ==> !Overdue(states[i], steps[i].r)
    ensures Within(states[k])
  {
    if k > 0 {
      RunWithin(states, steps, k - 1);
      var o := RunSafe(states, steps, k - 1);
      assert Next(states[k - 1], steps[k - 1], states[k]);
      NextWithin(states[k - 1], steps[k - 1], states[k]);
    }
  }

  /**
   A run keeps to the limit throughout exactly if no save queues a request when the count it goes by and the counts
   that were dropped with the request's active entries before its lookup reach the limit.
   */
  lemma LimitHoldsExactly<P>(states: seq<Cache<P>>, steps: seq<Step<P>>)
    requires Run(states, steps)
    ensures (forall k :: 0 <= k < |states| ==> Within(states[k])) <==>
      (forall i :: 0 <= i < |steps| && steps[i].DoQueue? ==> !Overdue(states[i], steps[i].r))
  {
    if forall i :: 0 <= i < |steps| && steps[i].DoQueue? ==> !Overdue(states[i], steps[i].r) {
      forall k | 0 <= k < |states| ensures Within(states[k]) { RunWithin(states, steps, k); }
    } else {
      var i :| 0 <= i < |steps| && steps[i].DoQueue? && Overdue(states[i], steps[i].r);
      var o := RunSafe(states, steps, i);
      assert Next(states[i], steps[i], states[i + 1]);
      OverdueBreaks(states[i], steps[i].r, steps[i].delay, states[i + 1]);
    }
  }

  /** Tasks leave the queue no earlier than they are due and never before one that is due sooner. */
  lemma ReleasedInDueOrder<P>(states: seq<Cache<P>>, steps: seq<Step<P>>, i: nat)
    requires Run(states, steps) && i < |steps| && steps[i].DoPop?
    ensures states[i + 1].popped.Some?
    ensures var t := states[i + 1].popped.value;
      t in states[i].waiting && t.due <= states[i].now && forall x :: x in states[i].waiting ==> t.due <= x.due
  {
    var o := RunSafe(states, steps, i);
    assert Next(states[i], steps[i], states[i + 1]);
  }

  // ----- when a request is due -----

  /** Step `j` puts the request back under the name `key`, the link its save has made. */
  ghost predicate QueuedAt<P>(states: seq<Cache<P>>, steps: seq<Step<P>>, j: nat, key: Key) {
    && j < |steps| < |states| && steps[j].DoQueue?
    && steps[j].r in states[j].saves && states[j].saves[steps[j].r].link == key
  }

  /** Step `m` takes the name `key` out of the queue. */
  ghost predicate ReleasedAt<P>(states: seq<Cache<P>>, steps: seq<Step<P>>, m: nat, key: Key) {
    m < |steps| && m + 1 < |states| && steps[m].DoPop? && states[m + 1].popped.Some? && states[m + 1].popped.value.key == key
  }

  /** The time of the call and the delay it asked for. */
  function Due<P>(states: seq<Cache<P>>, steps: seq<Step<P>>, j: nat): nat
    requires j < |steps| < |states|
  {
    states[j].now + if steps[j].DoQueue? then steps[j].delay else 0
  }

  /** The request of step `j` goes before that of step `l`: due earlier or, due at once, queued earlier. */
  predicate Before<P>(states: seq<Cache<P>>, steps: seq<Step<P>>, j: nat, l: nat)
    requires j < |steps| < |states| && l < |steps|
  {
    Due(states, steps, j) < Due(states, steps, l) || (Due(states, steps, j) == Due(states, steps, l) && j < l)
  }

  ghost predicate ComesFrom<P>(states: seq<Cache<P>>, steps: seq<Step<P>>, k: nat, t: Task<P>, j: nat) {
    && j < k && QueuedAt(states, steps, j, t.key) && t.due == Due(states, steps, j)
    && steps[j].r in states[j].live && t.payload == states[j].live[steps[j].r].payload
  }

  /** The tasks of `q` come from the steps `js`, all before step `k`, and stand in the order in which they are due. */
  ghost predicate Sources<P>(states: seq<Cache<P>>, steps: seq<Step<P>>, k: nat, q: seq<Task<P>>, js: seq<nat>) {
    && |js| == |q|
    && (forall a :: 0 <= a < |q| ==> ComesFrom(states, steps, k, q[a], js[a]))
    && forall a, b :: 0 <= a < b < |q| ==> Before(states, steps, js[a], js[b])
  }

  lemma {:induction false} InsertAt<P>(q: seq<Task<P>>, t: Task<P>) returns (n: nat)
    requires Sorted(q)
    ensures n <= |q| && Insert(q, t) == q[..n] + [t] + q[n..]
    ensures (forall a :: 0 <= a < n ==> q[a].due <= t.due) && forall a :: n <= a < |q| ==> t.due < q[a].due
  {
    if q == [] || t.due < q[0].due {
      n := 0;
    } else {
      n := InsertAt(q[1..], t);
      BehindFirst(q, t, n);
      n := n + 1;
      assert forall a :: 1 <= a < |q| ==> q[a] == q[1..][a - 1];
    }
  }

  lemma SourcesInsert<P>(states: seq<Cache<P>>, steps: seq<Step<P>>, k: nat, q: seq<Task<P>>, js: seq<nat>, t: Task<P>)
    returns (js': seq<nat>)
    requires Sorted(q) && Sources(states, steps, k, q, js) && ComesFrom(states, steps, k + 1, t, k)
    ensures Sources(states, steps, k + 1, Insert(q, t), js')
  {
    var n := InsertAt(q, t);
    js' := js[..n] + [k] + js[n..];
    var q' := Insert(q, t);
    forall a | 0 <= a < |q'|
      ensures ComesFrom(states, steps, k + 1, q'[a], js'[a])
    {
      assert a < n ==> ComesFrom(states, steps, k, q[a], js[a]);
      assert a > n ==> ComesFrom(states, steps, k, q[a - 1], js[a - 1]);
    }
    forall a, b | 0 <= a < b < |q'|
      ensures Before(states, steps, js'[a], js'[b])
    {
      SourcesOrder(states, steps, k, q, js, t, n, a, b);
    }
  }

  lemma SourcesOrder<P>(states: seq<Cache<P>>, steps: seq<Step<P>>, k: nat, q: seq<Task<P>>, js: seq<nat>, t: Task<P>, n: nat, a: nat, b: nat)
    requires Sources(states, steps, k, q, js) && ComesFrom(states, steps, k + 1, t, k) && n <= |q|
    requires (forall c :: 0 <= c < n ==> q[c].due <= t.due) && forall c :: n <= c < |q| ==> t.due < q[c].due
    requires a < b < |q| + 1
    ensures var js' := js[..n] + [k] + js[n..];
      js'[a] < |steps| < |states| && js'[b] < |steps| && Before(states, steps, js'[a], js'[b])
  {
    var x, y := if a < n then a else a - 1, if b < n then b else b - 1;
    if a != n {
      assert ComesFrom(states, steps, k, q[x], js[x]);
    }
    if b != n {
      assert ComesFrom(states, steps, k, q[y], js[y]);
    }
    if a != n && b != n {
      assert Before(states, steps, js[x], js[y]);
    }
  }

  /** A step other than queueing and releasing leaves the queue as it is. */
  lemma QueueSteps<P>(s: Cache<P>, step: Step<P>, t: Cache<P>)
    requires Next(s, step, t)
    ensures !step.DoQueue? && !step.DoPop? ==> t.waiting == s.waiting
    ensures step.DoPop? ==> s.waiting != [] && s.waiting[0].due <= s.now && t.popped == Some(s.waiting[0]) && t.waiting == s.waiting[1..]
    ensures step.DoQueue? ==> step.r in s.saves && step.r in s.live && HasLink(s.saves[step.r]) && t.saves == s.saves - {step.r}
    ensures step.DoQueue? ==> t.waiting == Insert(s.waiting, TaskOf(s, step.r, step.delay))
  {
  }

  /** At every point of a run the queue holds requests put back by earlier steps, in the order they are due. */
  lemma {:induction false} QueueSources<P>(states: seq<Cache<P>>, steps: seq<Step<P>>, k: nat) returns (js: seq<nat>)
    requires Run(states, steps) && k < |states|
    ensures Sources(states, steps, k, states[k].waiting, js)
  {
    if k == 0 {
      js := [];
    } else {
      js := QueueSources(states, steps, k - 1);
      var o := RunSafe(states, steps, k - 1);
      var s, step := states[k - 1], steps[k - 1];
      assert Next(s, step, states[k]);
      QueueSteps(s, step, states[k]);
      if step.DoQueue? {
        QueuedComesFrom(states, steps, k - 1);
        js := SourcesInsert(states, steps, k - 1, s.waiting, js, TaskOf(s, step.r, step.delay));
      } else {
        var n := if step.DoPop? then 1 else 0;
        SourcesLater(states, steps, k - 1, s.waiting, js, n);
        js := js[n..];
        assert states[k].waiting == s.waiting[n..];
      }
    }
  }

  lemma QueuedComesFrom<P>(states: seq<Cache<P>>, steps: seq<Step<P>>, j: nat)
    requires |states| == |steps| + 1 && j < |steps| && steps[j].DoQueue? && steps[j].r in states[j].saves && steps[j].r in states[j].live
    ensures ComesFrom(states, steps, j + 1, TaskOf(states[j], steps[j].r, steps[j].delay), j)
  {
  }

  lemma SourcesLater<P>(states: seq<Cache<P>>, steps: seq<Step<P>>, k: nat, q: seq<Task<P>>, js: seq<nat>, n: nat)
    requires Sources(states, steps, k, q, js) && n <= |q|
    ensures Sources(states, steps, k + 1, q[n..], js[n..])
  {
    forall a | 0 <= a < |q| - n
      ensures ComesFrom(states, steps, k + 1, q[n..][a], js[n..][a])
    {
      assert ComesFrom(states, steps, k, q[n + a], js[n + a]);
    }
  }

  // ----- a name is queued once -----

  /** No save in progress is going to queue `key`, and none will generate it. */
  ghost predicate Spent<P>(s: Cache<P>, key: Key) {
    key in s.used && forall r :: r in s.saves && HasLink(s.saves[r]) ==> s.saves[r].link != key
  }

  lemma SpentStays<P>(s: Cache<P>, step: Step<P>, t: Cache<P>, key: Key)
    requires Next(s, step, t) && Spent(s, key)
    ensures Spent(t, key)
  {
  }

  lemma QueueSpends<P>(states: seq<Cache<P>>, steps: seq<Step<P>>, j: nat, key: Key)
    requires Run(states, steps) && QueuedAt(states, steps, j, key)
    ensures Spent(states[j + 1], key)
  {
    var o := RunSafe(states, steps, j);
    var s, r, t := states[j], steps[j].r, states[j + 1];
    assert Next(s, steps[j], t);
    QueueSteps(s, steps[j], t);
    assert SaveOk(s, o, r) && KeyOk(s, o, key);
    forall x | x in t.saves && HasLink(t.saves[x])
      ensures t.saves[x].link != key
    {
      assert SaveOk(s, o, x);
    }
  }

  lemma {:induction false} SpentForGood<P>(states: seq<Cache<P>>, steps: seq<Step<P>>, j: nat, k: nat, key: Key)
    requires Run(states, steps) && QueuedAt(states, steps, j, key) && j < k < |states|
    ensures Spent(states[k], key)
  {
    if k == j + 1 {
      QueueSpends(states, steps, j, key);
    } else {
      SpentForGood(states, steps, j, k - 1, key);
      assert Next(states[k - 1], steps[k - 1], states[k]);
      SpentStays(states[k - 1], steps[k - 1], states[k], key);
    }
  }

  lemma QueuedOnce<P>(states: seq<Cache<P>>, steps: seq<Step<P>>, j: nat, l: nat, key: Key)
    requires Run(states, steps) && QueuedAt(states, steps, j, key) && QueuedAt(states, steps, l, key)
    ensures j == l
  {
    if j != l {
      var first, later := if j < l then j else l, if j < l then l else j;
      SpentForGood(states, steps, first, later, key);
      assert Next(states[later], steps[later], states[later + 1]);
      QueueSteps(states[later], steps[later], states[later + 1]);
      assert false;
    }
  }

  /** A queued name waits until it is released. */
  lemma {:induction false} WaitsUntilReleased<P>(states: seq<Cache<P>>, steps: seq<Step<P>>, j: nat, k: nat, key: Key)
    requires Run(states, steps) && QueuedAt(states, steps, j, key) && j < k < |states|
    requires forall m: nat :: j < m < k ==> !ReleasedAt(states, steps, m, key)
    ensures exists t :: t in states[k].waiting && t.key == key
  {
    var s, step := states[k - 1], steps[k - 1];
    assert Next(s, step, states[k]);
    QueueSteps(s, step, states[k]);
    if k == j + 1 {
      var t := TaskOf(s, step.r, step.delay);
      InsertMember(s.waiting, t, t);
    } else {
      WaitsUntilReleased(states, steps, j, k - 1, key);
      var t :| t in s.waiting && t.key == key;
      if step.DoQueue? {
        InsertMember(s.waiting, TaskOf(s, step.r, step.delay), t);
      } else if step.DoPop? {
        assert !ReleasedAt(states, steps, k - 1, key);
        assert s.waiting == [s.waiting[0]] + states[k].waiting;
      }
    }
  }

  /**
   Every release is of the request that an earlier step put back, not before the delay it asked for has passed. Of all
   requests put back and not released yet it is the one due first and, of those due at once, put back first.
   */
  lemma ReleasedOnTime<P>(states: seq<Cache<P>>, steps: seq<Step<P>>, i: nat) returns (j: nat)
    requires Run(states, steps) && i < |steps| && steps[i].DoPop?
    ensures states[i + 1].popped.Some? && j < i && QueuedAt(states, steps, j, states[i + 1].popped.value.key)
    ensures states[i].now >= states[j].now + steps[j].delay
    ensures steps[j].r in states[j].live && states[i + 1].popped.value.payload == states[j].live[steps[j].r].payload
    ensures forall l: nat, key ::
      l < i && l != j && QueuedAt(states, steps, l, key) &&
      (forall m: nat :: l < m < i ==> !ReleasedAt(states, steps, m, key)) ==>
      Before(states, steps, j, l)
  {
    assert Next(states[i], steps[i], states[i + 1]);
    QueueSteps(states[i], steps[i], states[i + 1]);
    var q := states[i].waiting;
    var js := QueueSources(states, steps, i);
    j := js[0];
    assert ComesFrom(states, steps, i, q[0], j);
    forall l: nat, key | l < i && l != j && QueuedAt(states, steps, l, key) &&
        (forall m: nat :: l < m < i ==> !ReleasedAt(states, steps, m, key))
      ensures Before(states, steps, j, l)
    {
      WaitsUntilReleased(states, steps, l, i, key);
      var t :| t in q && t.key == key;
      var b :| 0 <= b < |q| && q[b] == t;
      assert ComesFrom(states, steps, i, q[b], js[b]);
      QueuedOnce(states, steps, l, js[b], key);
    }
  }

  // ----- going on from a run -----

  lemma Extend<P>(states: seq<Cache<P>>, steps: seq<Step<P>>, step: Step<P>, t: Cache<P>)
    requires Run(states, steps) && Next(states[|steps|], step, t)
    ensures Run(states + [t], steps + [step])
  {
    var ss, xs := states + [t], steps + [step];
    forall i | 0 <= i < |xs|
      ensures Next(ss[i], xs[i], ss[i + 1])
    {
      if i < |steps| {
        assert Next(states[i], steps[i], states[i + 1]);
      }
    }
  }

  /** One step more, from the last state. */
  lemma Go<P>(states: seq<Cache<P>>, steps: seq<Step<P>>, step: Step<P>, t: Cache<P>)
    returns (ss: seq<Cache<P>>, xs: seq<Step<P>>)
    requires Run(states, steps) && Next(states[|steps|], step, t)
    ensures Run(ss, xs) && ss[|xs|] == t && ss == states + [t] && xs == steps + [step]
  {
    Extend(states, steps, step, t);
    ss, xs := states + [t], steps + [step];
  }

  lemma {:induction false} Bound(ids: set<Id>) returns (b: nat)
    ensures forall x :: x in ids ==> x < b
  {
    b := 0;
    if ids != {} {
      var y :| y in ids;
      var c := Bound(ids - {y});
      b := if c > y then c else y + 1;
      forall x | x in ids ensures x < b { assert x != y ==> x in ids - {y}; }
    }
  }

  /** Time passes until `due`. */
  lemma {:induction false} TimePasses<P>(states: seq<Cache<P>>, steps: seq<Step<P>>, due: nat)
    returns (ss: seq<Cache<P>>, xs: seq<Step<P>>)
    requires Run(states, steps)
    ensures Run(ss, xs) && states <= ss && steps <= xs
    ensures var s := states[|steps|]; ss[|xs|] == s.(now := if due > s.now then due else s.now)
    decreases due - states[|steps|].now
  {
    var s := states[|steps|];
    ss, xs := states, steps;
    if s.now < due {
      ss, xs := Go(ss, xs, DoTick, s.(now := s.now + 1));
      ss, xs := TimePasses(ss, xs, due);
    }
  }

  /** The handler finishes with what it has taken, and leaves the queue as it is. */
  lemma HandlerFree<P>(states: seq<Cache<P>>, steps: seq<Step<P>>) returns (ss: seq<Cache<P>>, xs: seq<Step<P>>)
    requires Run(states, steps)
    ensures Run(ss, xs) && states <= ss && steps <= xs
    ensures ss[|xs|].popped.None? && ss[|xs|].waiting == states[|steps|].waiting
  {
    var s := states[|steps|];
    ss, xs := states, steps;
    if s.popped.Some? {
      var r := Bound(s.live.Keys);
      ss, xs := Go(ss, xs, DoRestart(r), Restart(s, r));
    }
  }

  lemma PopAndRestart<P>(states: seq<Cache<P>>, steps: seq<Step<P>>)
    returns (ss: seq<Cache<P>>, xs: seq<Step<P>>, r: Id)
    requires Run(states, steps)
    requires var s := states[|steps|]; s.popped.None? && s.waiting != [] && s.waiting[0].due <= s.now
    ensures Run(ss, xs) && states <= ss && steps <= xs
    ensures var t := states[|steps|].waiting[0];
      r in ss[|xs|].live && ss[|xs|].live[r].body == InFile(t.key) && ss[|xs|].live[r].payload == t.payload
  {
    var s := states[|steps|];
    ss, xs := Go(states, steps, DoPop, Pop(s));
    var o := RunSafe(ss, xs, |xs|);
    assert TaskOk(Pop(s), o, s.waiting[0], Handler);
    r := Bound(s.live.Keys);
    ss, xs := Go(ss, xs, DoRestart(r), Restart(Pop(s), r));
  }

  /** No dead end: whenever a request waits, the run can go on so that the first one is handled again. */
  lemma FirstCanBeRestarted<P>(states: seq<Cache<P>>, steps: seq<Step<P>>)
    returns (ss: seq<Cache<P>>, xs: seq<Step<P>>, r: Id)
    requires Run(states, steps) && states[|steps|].waiting != []
    ensures Run(ss, xs) && states <= ss && steps <= xs
    ensures var t := states[|steps|].waiting[0];
      r in ss[|xs|].live && ss[|xs|].live[r].body == InFile(t.key) && ss[|xs|].live[r].payload == t.payload
  {
    ss, xs := HandlerFree(states, steps);
    ss, xs := TimePasses(ss, xs, states[|steps|].waiting[0].due);
    ss, xs, r := PopAndRestart(ss, xs);
  }

  // ----- a run that exceeds the limit -----

  /** A request in memory comes to the lookup of its first save. */
  lemma FirstLook<P>(limit: nat, p: P) returns (states: seq<Cache<P>>, steps: seq<Step<P>>)
    requires limit > 0
    ensures Run(states, steps)
    ensures states[|steps|] == Cache(limit, 0, {0}, map[], [], map[], [], None,
      map[0 := Request(InMemory, p, true, 0, 1, 0, false)], map[0 := Save(Looked, 0, false, 0, 0, false, 0)])
  {
    var s0: Cache<P> := Create(limit);
    states, steps := [s0], [];
    var s1 := Arrive(s0, 0, p);
    states, steps := Go(states, steps, DoArrive(0, p), s1);
    var s2 := SaveLook(s1, 0, 0);
    states, steps := Go(states, steps, DoLook(0, 0), s2);
    assert s2.used == {0};
  }

  /** It is serialised and linked under the name 1. */
  lemma FirstLink<P>(limit: nat, p: P) returns (states: seq<Cache<P>>, steps: seq<Step<P>>)
    requires limit > 0
    ensures Run(states, steps)
    ensures states[|steps|] == Cache(limit, 0, {0, 1}, map[1 := 0], [Complete(p)], map[], [], None,
      map[0 := Request(InMemory, p, true, 0, 1, 0, false)], map[0 := Save(Linked, 0, false, 0, 1, false, 0)])
  {
    states, steps := FirstLook(limit, p);
    var s3 := SaveSpool(states[|steps|], 0);
    states, steps := Go(states, steps, DoSpool(0), s3);
    var s4 := SaveLink(s3, 0, 1);
    states, steps := Go(states, steps, DoLink(0, 1), s4);
    var s5 := SaveRelease(s4, 0);
    states, steps := Go(states, steps, DoRelease(0), s5);
    assert s5.names == map[1 := 0];
  }

  /** Nothing is going on but the one task that waits under the name `key`, with its file. */
  ghost predicate Waits<P>(s: Cache<P>, limit: nat, key: Key, t: Task<P>) {
    && s.maxRetries == limit && s.saves == map[] && s.active == map[] && s.popped.None? && s.waiting == [t]
    && t.key == key && t.due == s.now + 1 && Holds(s, key, t.payload)
    && (forall k :: k in s.used ==> k <= key) && (forall r :: r in s.live ==> r < key)
  }

  lemma FirstSave<P>(limit: nat, p: P) returns (states: seq<Cache<P>>, steps: seq<Step<P>>)
    requires limit > 0
    ensures Run(states, steps) && Waits(states[|steps|], limit, 1, Task(states[|steps|].now + 1, 1, 1, 1, 0, false, p))
  {
    states, steps := FirstLink(limit, p);
    var s6 := SaveQueue(states[|steps|], 0, 1);
    states, steps := Go(states, steps, DoQueue(0, 1), s6);
    assert s6.saves == map[];
  }

  /** Nothing is going on but the handling of request `r`, whose body is in the file named `r`. */
  ghost predicate Handles<P>(s: Cache<P>, limit: nat, r: Id, q: Request<P>) {
    && s.maxRetries == limit && s.saves == map[] && s.popped.None? && s.waiting == []
    && r in s.live && s.live[r] == q && q.body == InFile(r) && q.attached && Holds(s, r, q.payload)
    && r in s.used && (forall k :: k in s.used ==> k <= r) && (forall x :: x in s.live ==> x <= r)
  }

  /** Time passes, and the waiting task is handled again. */
  lemma Again<P>(states: seq<Cache<P>>, steps: seq<Step<P>>, limit: nat, key: Key, t: Task<P>)
    returns (ss: seq<Cache<P>>, xs: seq<Step<P>>)
    requires Run(states, steps) && Waits(states[|steps|], limit, key, t)
    ensures Run(ss, xs)
    ensures Handles(ss[|xs|], limit, key, Request(InFile(key), t.payload, true, t.runs, 0, t.lost, t.again))
    ensures ss[|xs|].active == map[key := t.retries]
  {
    var s := states[|steps|];
    var s1 := s.(now := s.now + 1);
    ss, xs := Go(states, steps, DoTick, s1);
    var s2 := Pop(s1);
    ss, xs := Go(ss, xs, DoPop, s2);
    var s3 := Restart(s2, key);
    ss, xs := Go(ss, xs, DoRestart(key), s3);
    UsedKey(states, steps, t);
  }

  lemma UsedKey<P>(states: seq<Cache<P>>, steps: seq<Step<P>>, t: Task<P>)
    requires Run(states, steps) && t in states[|steps|].waiting
    ensures t.key in states[|steps|].used
  {
    var s := states[|steps|];
    var o := RunSafe(states, steps, |steps|);
    assert TaskOk(s, o, t, Queue);
    assert KeyOk(s, o, t.key);
  }

  /** The lookup and the link of a save that does not give up. */
  lemma LookAndLink<P>(states: seq<Cache<P>>, steps: seq<Step<P>>, limit: nat, r: Id, q: Request<P>)
    returns (ss: seq<Cache<P>>, xs: seq<Step<P>>, s: Cache<P>)
    requires Run(states, steps) && Handles(states[|steps|], limit, r, q) && limit > 0
    requires Count(states[|steps|], r) < limit
    ensures s == states[|steps|] && Run(ss, xs) && r + 1 !in s.used
    ensures ss[|xs|] == SaveLink(SaveLook(s, r, r), r, r + 1)
  {
    s := states[|steps|];
    assert r + 1 !in s.used;
    var s1 := SaveLook(s, r, r);
    ss, xs := Go(states, steps, DoLook(r, r), s1);
    var s2 := SaveLink(s1, r, r + 1);
    ss, xs := Go(ss, xs, DoLink(r, r + 1), s2);
  }

  lemma QueuedOnly<P>(s: Cache<P>, limit: nat, r: Id, q: Request<P>, u: Cache<P>, t: Task<P>)
    requires Handles(s, limit, r, q) && u.maxRetries == limit && u.saves == map[] && u.active == map[]
    requires u.popped.None? && u.waiting == [t] && t.key == r + 1 && t.due == u.now + 1 && t.payload == q.payload
    requires u.files == s.files && u.names == s.names[r + 1 := s.names[r]] && u.used == s.used + {r, r + 1}
    requires u.live.Keys == s.live.Keys
    ensures Waits(u, limit, r + 1, t)
  {
    forall x | x in u.live ensures x < r + 1 { assert x in s.live.Keys; }
  }

  /** An ordinary save: one retry more. */
  lemma OneMore<P>(states: seq<Cache<P>>, steps: seq<Step<P>>, limit: nat, r: Id, n: nat, p: P)
    returns (ss: seq<Cache<P>>, xs: seq<Step<P>>)
    requires Run(states, steps) && 0 < n < limit && states[|steps|].active == map[r := n]
    requires Handles(states[|steps|], limit, r, Request(InFile(r), p, true, n, 0, 0, false))
    ensures Run(ss, xs)
    ensures Waits(ss[|xs|], limit, r + 1, Task(ss[|xs|].now + 1, r + 1, n + 1, n + 1, 0, false, p))
  {
    var q := Request(InFile(r), p, true, n, 0, 0, false);
    var s;
    ss, xs, s := LookAndLink(states, steps, limit, r, q);
    var s2 := ss[|xs|];
    var s3 := SaveErase(s2, r);
    ss, xs := Go(ss, xs, DoErase(r), s3);
    assert s3.active == map[];
    var s4 := SaveQueue(s3, r, 1);
    ss, xs := Go(ss, xs, DoQueue(r, 1), s4);
    assert s4.live.Keys == s.live.Keys && s4.saves == map[];
    QueuedOnly(s, limit, r, q, s4, s4.waiting[0]);
  }

  /** A save that gives up at the limit erases the entry. */
  lemma GiveUpOnce<P>(states: seq<Cache<P>>, steps: seq<Step<P>>, limit: nat, r: Id, p: P)
    returns (ss: seq<Cache<P>>, xs: seq<Step<P>>)
    requires Run(states, steps) && limit > 0 && states[|steps|].active == map[r := limit]
    requires Handles(states[|steps|], limit, r, Request(InFile(r), p, true, limit, 0, 0, false))
    ensures Run(ss, xs) && ss[|xs|].active == map[]
    ensures Handles(ss[|xs|], limit, r, Request(InFile(r), p, true, limit, 1, limit, false))
  {
    var s := states[|steps|];
    var s1 := SaveLook(s, r, r);
    ss, xs := Go(states, steps, DoLook(r, r), s1);
    var s2 := SaveGiveUp(s1, r);
    ss, xs := Go(ss, xs, DoGiveUp(r), s2);
    assert s2.active == map[] && s2.saves == map[] && s2.used == s.used && s2.live.Keys == s.live.Keys;
  }

  /** The next save in the same handling finds no entry and starts counting anew. */
  lemma SaveAnew<P>(states: seq<Cache<P>>, steps: seq<Step<P>>, limit: nat, r: Id, p: P)
    returns (ss: seq<Cache<P>>, xs: seq<Step<P>>)
    requires Run(states, steps) && limit > 0 && states[|steps|].active == map[]
    requires Handles(states[|steps|], limit, r, Request(InFile(r), p, true, limit, 1, limit, false))
    ensures Run(ss, xs)
    ensures Waits(ss[|xs|], limit, r + 1, Task(ss[|xs|].now + 1, r + 1, 1, limit + 1, limit, true, p))
  {
    var q := Request(InFile(r), p, true, limit, 1, limit, false);
    var s;
    ss, xs, s := LookAndLink(states, steps, limit, r, q);
    var s4 := SaveQueue(ss[|xs|], r, 1);
    ss, xs := Go(ss, xs, DoQueue(r, 1), s4);
    assert s4.live.Keys == s.live.Keys && s4.saves == map[];
    QueuedOnly(s, limit, r, q, s4, s4.waiting[0]);
  }

  /** One save in each handling brings a request to its n-th re-run. */
  lemma {:induction false} Reruns<P>(limit: nat, n: nat, p: P) returns (states: seq<Cache<P>>, steps: seq<Step<P>>)
    requires 0 < n <= limit
    ensures Run(states, steps) && states[|steps|].active == map[n := n]
    ensures Handles(states[|steps|], limit, n, Request(InFile(n), p, true, n, 0, 0, false))
  {
    if n == 1 {
      states, steps := FirstSave(limit, p);
    } else {
      states, steps := Reruns(limit, n - 1, p);
      states, steps := OneMore(states, steps, limit, n - 1, n - 1, p);
    }
    var t := states[|steps|].waiting[0];
    states, steps := Again(states, steps, limit, n, t);
  }

  /** Whatever the limit, saving twice in one handling gets a request re-run once more than it allows. */
  lemma TwoSavesExceedTheLimit<P>(limit: nat, p: P) returns (states: seq<Cache<P>>, steps: seq<Step<P>>)
    requires limit > 0
    ensures Run(states, steps)
    ensures var s := states[|steps|];
      s.maxRetries == limit && limit + 1 in s.live && s.live[limit + 1].runs == limit + 1 && s.live[limit + 1].payload == p
  {
    states, steps := Reruns(limit, limit, p);
    states, steps := GiveUpOnce(states, steps, limit, limit, p);
    states, steps := SaveAnew(states, steps, limit, limit, p);
    var t := states[|steps|].waiting[0];
    states, steps := Again(states, steps, limit, limit + 1, t);
  }
}
