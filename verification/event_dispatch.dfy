/** The event dispatcher's bookkeeping: file and metadata events are queued
    per key and handed on once no event for that key has arrived for five
    seconds; a count of event submitters starts and stops the interval
    timer; and a reference count per media folder decides when real-time
    monitoring of the folder resumes. Times are milliseconds read from a
    clock that is a parameter here. */
module EventDispatch {
  import FileEvents

  /** Events for a key wait this long after the last one. */
  const DetectChangesThresholdMs: int := 5000

  /** How long monitoring of a media folder stays paused. */
  const MagicalDelayValueMs: int := 45000

  /** Why a file event was sent. */
  datatype UpdateReason = NoReason | Added | Updated | Removed

  /** One queued file change. */
  datatype FileChange = FileChange(reason: UpdateReason, importFolderId: int, path: string,
                                   args: FileEvents.FileEventArgs)

  /** The events queued for one key: when the entry was last touched, the
      events in arrival order, and the tracker id the entry was given. */
  datatype Pending<E> = Pending(lastUpdated: int, events: seq<E>, tracker: int)

  // ----- Queuing -----

  /** `AddFileEvent` and `AddSeriesEvent` as written: the event is appended
      to the key's list, but the timestamp is set on a copy of the entry, so
      an existing entry keeps its first time. A new key gets the current time
      and a fresh tracker id. */
  function AddEventAsWritten<K(!new), E>(queue: map<K, Pending<E>>, key: K, event: E, now: int, tracker: int)
    : (r: map<K, Pending<E>>)
    ensures r.Keys == queue.Keys + {key}
    ensures key in queue ==> r[key] == queue[key].(events := queue[key].events + [event])
    ensures key !in queue ==> r[key] == Pending(now, [event], tracker)
    ensures forall k :: k in queue && k != key ==> r[k] == queue[k]
  {
    if key in queue then queue[key := queue[key].(events := queue[key].events + [event])]
    else queue[key := Pending(now, [event], tracker)]
  }

  /** The evident intent: every new event restarts the key's wait. */
  function AddEvent<K(!new), E>(queue: map<K, Pending<E>>, key: K, event: E, now: int, tracker: int)
    : (r: map<K, Pending<E>>)
    ensures r.Keys == queue.Keys + {key}
    ensures r[key].lastUpdated == now
    ensures key in queue ==> r[key].events == queue[key].events + [event] && r[key].tracker == queue[key].tracker
    ensures key !in queue ==> r[key] == Pending(now, [event], tracker)
    ensures forall k :: k in queue && k != key ==> r[k] == queue[k]
  {
    if key in queue then queue[key := Pending(now, queue[key].events + [event], queue[key].tracker)]
    else queue[key := Pending(now, [event], tracker)]
  }

  /** Whether an entry has waited long enough at time `now`. */
  predicate Due<E>(p: Pending<E>, now: int) {
    now - p.lastUpdated >= DetectChangesThresholdMs
  }

  /** The interval handler's extraction: the entries that have waited at
      least five seconds are taken out and handed on; the rest stay. */
  function Extract<K(!new), E>(queue: map<K, Pending<E>>, now: int): (r: (map<K, Pending<E>>, map<K, Pending<E>>))
    ensures r.0.Keys !! r.1.Keys && r.0.Keys + r.1.Keys == queue.Keys
    ensures forall k :: k in r.0 <==> k in queue && Due(queue[k], now)
    ensures forall k :: k in r.0 ==> r.0[k] == queue[k]
    ensures forall k :: k in r.1 ==> r.1[k] == queue[k]
  {
    (map k | k in queue && Due(queue[k], now) :: queue[k],
     map k | k in queue && !Due(queue[k], now) :: queue[k])
  }

  /** Nothing is lost or made up: what is handed on and what stays make up
      the queue again. */
  lemma ExtractPartitions<K(!new), E>(queue: map<K, Pending<E>>, now: int)
    ensures Extract(queue, now).0 + Extract(queue, now).1 == queue
  {
    var (due, rest) := Extract(queue, now);
    assert (due + rest).Keys == queue.Keys;
  }

  /** Extracting twice at the same time hands nothing more on. */
  lemma ExtractIdempotent<K(!new), E>(queue: map<K, Pending<E>>, now: int)
    ensures Extract(Extract(queue, now).1, now).0 == map[]
    ensures Extract(Extract(queue, now).1, now).1 == Extract(queue, now).1
  {
    var rest := Extract(queue, now).1;
    assert Extract(rest, now).0.Keys == {};
  }

  /** With the intended update, a key is not handed on until five seconds
      after its latest event. */
  lemma AddEventDebounces<K(!new), E>(queue: map<K, Pending<E>>, key: K, event: E, now: int, tracker: int, later: int)
    requires later < now + DetectChangesThresholdMs
    ensures key !in Extract(AddEvent(queue, key, event, now, tracker), later).0
    ensures key in Extract(AddEvent(queue, key, event, now, tracker), now + DetectChangesThresholdMs).0
  {
  }

  /** As written, an event arriving 4999 ms after the first one for a key is
      handed on one millisecond after it arrived. */
  lemma AsWrittenHandsOnFreshEvent()
    ensures var queue := AddEventAsWritten(map[7 := Pending(0, [1], 1)], 7, 2, 4999, 2);
      && queue[7].events == [1, 2]
      && 7 in Extract(queue, 5000).0
  {
    var queue := AddEventAsWritten(map[7 := Pending(0, [1], 1)], 7, 2, 4999, 2);
    assert queue[7] == Pending(0, [1, 2], 1);
  }

  // ----- Submitters -----

  /** The dispatcher: the number of registered submitters, whether the
      interval timer runs, and the file and metadata queues. */
  datatype Dispatcher<S> = Dispatcher(submitters: int, timerRunning: bool,
                                      files: map<int, Pending<FileChange>>,
                                      series: map<string, Pending<S>>)

  /** Registering a submitter: the first one starts the timer. */
  function RegisterEventSubmitter<S>(d: Dispatcher<S>): (r: Dispatcher<S>)
    ensures r.submitters == d.submitters + 1
    ensures r.timerRunning <==> d.timerRunning || d.submitters == 0
    ensures r.files == d.files && r.series == d.series
  {
    d.(submitters := d.submitters + 1, timerRunning := d.timerRunning || d.submitters == 0)
  }

  /** What deregistering hands on: the file and metadata entries flushed. */
  datatype Flushed<S> = Flushed(files: map<int, Pending<FileChange>>, series: map<string, Pending<S>>)

  /** Deregistering a submitter: when none is left, the timer stops and every
      queued entry is handed on at once, however recent. */
  function DeregisterEventSubmitter<S>(d: Dispatcher<S>): (r: (Dispatcher<S>, Flushed<S>))
    ensures r.0.submitters == d.submitters - 1
    ensures d.submitters == 1 ==> !r.0.timerRunning && r.0.files == map[] && r.0.series == map[]
    ensures d.submitters == 1 ==> r.1 == Flushed(d.files, d.series)
    ensures d.submitters != 1 ==> r.0 == d.(submitters := d.submitters - 1) && r.1 == Flushed(map[], map[])
  {
    var count := d.submitters - 1;
    if count == 0 then (Dispatcher(0, false, map[], map[]), Flushed(d.files, d.series))
    else (d.(submitters := count), Flushed(map[], map[]))
  }

  /** The timer runs exactly while some submitter is registered. */
  predicate TimerMatchesSubmitters<S>(d: Dispatcher<S>) {
    d.submitters >= 0 && (d.timerRunning <==> d.submitters > 0)
  }

  /** Registering keeps the timer in step with the submitters, and so does
      deregistering a registered one. */
  lemma SubmittersKeepTimer<S>(d: Dispatcher<S>)
    requires TimerMatchesSubmitters(d)
    ensures TimerMatchesSubmitters(RegisterEventSubmitter(d))
    ensures d.submitters > 0 ==> TimerMatchesSubmitters(DeregisterEventSubmitter(d).0)
  {
  }

  /** `n` registrations followed by `n` deregistrations. */
  function Cycle<S>(d: Dispatcher<S>, n: nat): (r: Dispatcher<S>)
    ensures r.submitters == d.submitters
    decreases n
  {
    if n == 0 then d
    else DeregisterEventSubmitter(Cycle(RegisterEventSubmitter(d), n - 1)).0
  }

  /** From no submitters, registering and then releasing any number of them
      leaves the timer stopped and both queues empty; the queues stay as they
      were only when there was nobody to register. */
  lemma {:induction false} CycleStopsTimer<S>(d: Dispatcher<S>, n: nat)
    requires d.submitters == 0
    ensures n == 0 ==> Cycle(d, n) == d
    ensures n > 0 ==> !Cycle(d, n).timerRunning && Cycle(d, n).files == map[] && Cycle(d, n).series == map[]
    decreases n
  {
    if n > 0 {
      var up := RegisterEventSubmitter(d);
      var inner := Cycle(up, n - 1);
      assert inner.submitters == 1;
    }
  }

  // ----- Media folder monitoring -----

  /** How many file events are using a media folder, and when its pause ends. */
  datatype Monitor = Monitor(refCount: int, delayEnd: int)

  /** Starting to report a change under a media folder: the first user pauses
      it for 45 seconds; later users join the pause and wait for what is left
      of it. Returns the table and the delay to wait. */
  function AcquireMediaFolder(monitors: map<string, Monitor>, path: string, now: int)
    : (r: (map<string, Monitor>, int))
    ensures r.0.Keys == monitors.Keys + {path}
    ensures path !in monitors ==> r.0[path] == Monitor(1, now + MagicalDelayValueMs) && r.1 == MagicalDelayValueMs
    ensures path in monitors ==>
      r.0[path] == Monitor(monitors[path].refCount + 1, monitors[path].delayEnd)
      && r.1 == monitors[path].delayEnd - now
    ensures forall p :: p in monitors && p != path ==> r.0[p] == monitors[p]
  {
    if path in monitors then
      var entry := monitors[path];
      (monitors[path := Monitor(entry.refCount + 1, entry.delayEnd)], entry.delayEnd - now)
    else (monitors[path := Monitor(1, now + MagicalDelayValueMs)], MagicalDelayValueMs)
  }

  /** Finishing with a media folder: the last user removes the entry and
      resumes monitoring; any other user only lowers the count. Returns the
      table and whether monitoring resumes. */
  function ReleaseMediaFolder(monitors: map<string, Monitor>, path: string): (r: (map<string, Monitor>, bool))
    ensures r.1 <==> path in monitors && monitors[path].refCount == 1
    ensures r.1 ==> r.0 == monitors - {path}
    ensures !r.1 && path in monitors ==>
      r.0 == monitors[path := Monitor(monitors[path].refCount - 1, monitors[path].delayEnd)]
    ensures path !in monitors ==> r.0 == monitors
  {
    if path in monitors then
      var entry := monitors[path];
      if entry.refCount == 1 then (monitors - {path}, true)
      else (monitors[path := Monitor(entry.refCount - 1, entry.delayEnd)], false)
    else (monitors, false)
  }

  /** Every entry is held by at least one user. */
  predicate Held(monitors: map<string, Monitor>) {
    forall p :: p in monitors ==> monitors[p].refCount >= 1
  }

  /** Acquiring and releasing keep every entry held, and releasing right
      after acquiring restores the table, resuming monitoring exactly when
      nobody else was using the folder. */
  lemma AcquireReleaseRestores(monitors: map<string, Monitor>, path: string, now: int)
    requires Held(monitors)
    ensures Held(AcquireMediaFolder(monitors, path, now).0)
    ensures Held(ReleaseMediaFolder(monitors, path).0)
    ensures ReleaseMediaFolder(AcquireMediaFolder(monitors, path, now).0, path) == (monitors, path !in monitors)
  {
    var acquired := AcquireMediaFolder(monitors, path, now).0;
    if path in monitors {
      assert acquired[path := monitors[path]] == monitors;
    } else {
      assert acquired - {path} == monitors;
    }
  }

  /** `n` users acquiring a folder nobody used, then releasing it: only the
      last release resumes monitoring, and the table ends as it began. */
  function ReleaseAll(monitors: map<string, Monitor>, path: string, n: nat): (r: (map<string, Monitor>, seq<bool>))
    ensures |r.1| == n
    decreases n
  {
    if n == 0 then (monitors, [])
    else
      var (m, resumed) := ReleaseMediaFolder(monitors, path);
      var (rest, flags) := ReleaseAll(m, path, n - 1);
      (rest, [resumed] + flags)
  }

  /** Releasing a folder held by `n` users `n` times resumes monitoring on
      the last release only and removes the entry. */
  lemma {:induction false} OnlyLastReleaseResumes(monitors: map<string, Monitor>, path: string, n: nat)
    requires n >= 1 && path in monitors && monitors[path].refCount == n
    ensures ReleaseAll(monitors, path, n).0 == monitors - {path}
    ensures forall i :: 0 <= i < n ==> (ReleaseAll(monitors, path, n).1[i] <==> i == n - 1)
    decreases n
  {
    var (m, resumed) := ReleaseMediaFolder(monitors, path);
    if n > 1 {
      OnlyLastReleaseResumes(m, path, n - 1);
      assert m - {path} == monitors - {path};
    }
  }
}
