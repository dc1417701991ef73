/** The Gmail push service: the controller that owns the notification queue
    and hands snapshots to the UI, the background aging pass over that queue,
    the history fetch that a push triggers, and the push endpoint's decision.
    Times are whole seconds since the epoch. */
module EmailService {
  import opened PyLists
  import opened NotificationStore

  /** Seconds a Gmail notification lives (`LIFETIME = 300.0`). */
  const LIFETIME: int := 300
  /** The default `max_size` of `FixedQueue()`. */
  const QUEUE_SIZE: int := 5

  // ---- The aging pass of start_watcher ----

  /** `elapsed / total < a / b` over the rationals, for a non-zero total. */
  predicate RatioBelow(elapsed: int, total: int, a: int, b: int)
    requires total != 0 && b > 0
  {
    if total > 0 then b * elapsed < a * total else b * elapsed > a * total
  }

  /** What one iteration of the watcher does with a note: skip it (no time
      or no expiry), fail on a zero lifetime (ZeroDivisionError), remove it,
      or give it a colour. */
  datatype Verdict = Skip | DivByZero | Expire | Keep(color: Color)

  function Classify(n: Notification, now: int): (v: Verdict)
    ensures v.Skip? <==> n.time.None? || n.expiresAt.None?
    ensures v.DivByZero? <==> n.time.Some? && n.expiresAt.Some? && n.expiresAt.value == n.time.value
  {
    if n.time.None? || n.expiresAt.None? then Skip
    else
      var total := n.expiresAt.value - n.time.value;
      var elapsed := now - n.time.value;
      if total == 0 then DivByZero
      else if !RatioBelow(elapsed, total, 1, 1) then Expire
      else if RatioBelow(elapsed, total, 1, 3) then Keep(Green)
      else if RatioBelow(elapsed, total, 2, 3) then Keep(Yellow)
      else Keep(Red)
  }

  /** For a positive lifetime the verdict is read off the elapsed time:
      removed at the lifetime, green below a third, yellow below two thirds,
      red after. */
  lemma ClassifyPositiveLifetime(n: Notification, now: int)
    requires n.time.Some? && n.expiresAt.Some? && n.expiresAt.value > n.time.value
    ensures var total, e := n.expiresAt.value - n.time.value, now - n.time.value;
      (Classify(n, now) == Expire <==> e >= total) &&
      (Classify(n, now) == Keep(Green) <==> 3 * e < total) &&
      (Classify(n, now) == Keep(Yellow) <==> total <= 3 * e < 2 * total) &&
      (Classify(n, now) == Keep(Red) <==> 2 * total <= 3 * e && e < total)
  {
  }

  /** With the 300-second lifetime of a Gmail notification: green below 100
      seconds, yellow below 200, red below 300, removed from 300 on. */
  lemma GmailNoteAges(msgId: string, msg: GmailMessage, env: Environment, now: int)
    ensures var n := FromGmail(msgId, msg, LIFETIME, env);
      var e := now - n.time.value;
      Classify(n, now) == (if e >= 300 then Expire else if e < 100 then Keep(Green)
                           else if e < 200 then Keep(Yellow) else Keep(Red))
  {
    ClassifyPositiveLifetime(FromGmail(msgId, msg, LIFETIME, env), now);
  }

  /** The verdict does not depend on the colour a note has now. */
  lemma ClassifyIgnoresColor(n: Notification, c: Color, now: int)
    ensures Classify(n.(color := c), now) == Classify(n, now)
  {
  }

  /** `note.color = color` on the queue's copy of the note (the first one
      equal to it). */
  function RecolorIn(q: seq<Notification>, n: Notification, c: Color): (r: seq<Notification>)
    ensures |r| == |q|
  {
    match IndexOf(q, n)
    case None => q
    case Some(k) => q[k := n.(color := c)]
  }

  datatype SweepResult = SweepResult(queue: seq<Notification>, changed: bool, crashed: bool)

  /** The watcher's `for note in list(local_queue.queue)` as written: `todo`
      is what is left of the snapshot, `q` the live queue. Removal is
      `list.remove`, which compares notifications field by field; a
      ZeroDivisionError or a ValueError ends the thread (`crashed`). */
  function Sweep(todo: seq<Notification>, q: seq<Notification>, now: int, changed: bool): (r: SweepResult)
    ensures |r.queue| <= |q|
    ensures changed ==> r.changed
    ensures !r.changed ==> r.queue == q
    decreases |todo|
  {
    if todo == [] then SweepResult(q, changed, false)
    else
      var n := todo[0];
      match Classify(n, now)
      case Skip => Sweep(todo[1..], q, now, changed)
      case DivByZero => SweepResult(q, changed, true)
      case Expire =>
        var r := Remove(q, n);
        if r.raised then SweepResult(q, changed, true)
        else Sweep(todo[1..], r.list, now, true)
      case Keep(c) =>
        if n.color != c then Sweep(todo[1..], RecolorIn(q, n, c), now, true)
        else Sweep(todo[1..], q, now, changed)
  }

  /** One iteration of the watcher loop, by verdict. */
  lemma SweepHead(todo: seq<Notification>, q: seq<Notification>, now: int, changed: bool)
    requires todo != []
    ensures var n, t := todo[0], todo[1..];
      match Classify(n, now)
      case Skip => Sweep(todo, q, now, changed) == Sweep(t, q, now, changed)
      case DivByZero => Sweep(todo, q, now, changed) == SweepResult(q, changed, true)
      case Expire =>
        Sweep(todo, q, now, changed) ==
          if Remove(q, n).raised then SweepResult(q, changed, true) else Sweep(t, Remove(q, n).list, now, true)
      case Keep(c) =>
        Sweep(todo, q, now, changed) ==
          if n.color != c then Sweep(t, RecolorIn(q, n, c), now, true) else Sweep(t, q, now, changed)
  {
  }

  /** One pass of the watcher over a queue. */
  function WatcherPass(q: seq<Notification>, now: int): (r: SweepResult)
    ensures |r.queue| <= |q|
    ensures !r.changed ==> r.queue == q
  {
    Sweep(q, q, now, false)
  }

  /** The intended net effect of a pass: notes at or past their lifetime are
      gone and the others carry the colour their age calls for. */
  function Swept(q: seq<Notification>, now: int): (r: seq<Notification>)
    ensures |r| <= |q|
  {
    if q == [] then []
    else match Classify(q[0], now)
      case Expire => Swept(q[1..], now)
      case Keep(c) => [q[0].(color := c)] + Swept(q[1..], now)
      case _ => [q[0]] + Swept(q[1..], now)
  }

  /** No note in q has a zero lifetime. */
  predicate NoZeroLifetime(q: seq<Notification>, now: int) {
    forall k :: 0 <= k < |q| ==> !Classify(q[k], now).DivByZero?
  }

  /** The first element equal to the head of `todo` sits right after the
      processed prefix. */
  lemma FirstAfterPrefix(p: seq<Notification>, todo: seq<Notification>)
    requires todo != [] && UniqueIds(p + todo)
    ensures IndexOf(p + todo, todo[0]) == Some(|p|)
  {
    var xs := p + todo;
    assert xs[|p|] == todo[0];
    var r := IndexOf(xs, todo[0]);
    assert r.Some? && r.value <= |p|;
    assert xs[r.value].id == xs[|p|].id;
  }

  lemma NoZeroLifetimeTail(q: seq<Notification>, now: int)
    requires q != [] && NoZeroLifetime(q, now)
    ensures !Classify(q[0], now).DivByZero? && NoZeroLifetime(q[1..], now)
  {
    assert !Classify(q[0], now).DivByZero?;
    forall k | 0 <= k < |q| - 1 ensures !Classify(q[1..][k], now).DivByZero? {
      assert q[1..][k] == q[k + 1];
    }
  }

  /** Dropping the element at |p| keeps the ids unique. */
  lemma UniqueWithout(p: seq<Notification>, todo: seq<Notification>)
    requires todo != [] && UniqueIds(p + todo)
    ensures UniqueIds(p + todo[1..])
  {
    var t, xs := todo[1..], p + todo;
    forall i, j | 0 <= i < j < |p + t| ensures (p + t)[i].id != (p + t)[j].id {
      var i', j' := if i < |p| then i else i + 1, if j < |p| then j else j + 1;
      assert (p + t)[i] == xs[i'] && (p + t)[j] == xs[j'];
    }
  }

  /** One step on a note that is due: `remove` drops exactly the copy right
      after the processed prefix. */
  lemma ExpireStep(p: seq<Notification>, todo: seq<Notification>, now: int, changed: bool)
    requires todo != [] && UniqueIds(p + todo) && Classify(todo[0], now).Expire?
    ensures Sweep(todo, p + todo, now, changed) == Sweep(todo[1..], p + todo[1..], now, true)
    ensures UniqueIds(p + todo[1..])
    ensures Swept(todo, now) == Swept(todo[1..], now)
  {
    var n, t, xs := todo[0], todo[1..], p + todo;
    FirstAfterPrefix(p, todo);
    RemoveAt(xs, n, |p|);
    assert xs[..|p|] + xs[|p| + 1..] == p + t;
    UniqueWithout(p, todo);
  }

  /** One step on a note that stays: it is recoloured in place (or left as
      it is) and joins the processed prefix. */
  lemma KeepStep(p: seq<Notification>, todo: seq<Notification>, now: int, changed: bool)
    requires todo != [] && UniqueIds(p + todo)
    requires Classify(todo[0], now).Skip? || Classify(todo[0], now).Keep?
    ensures var n, v := todo[0], Classify(todo[0], now);
      var h := if v.Keep? then n.(color := v.color) else n;
      Sweep(todo, p + todo, now, changed) == Sweep(todo[1..], (p + [h]) + todo[1..], now, changed || h != n) &&
      UniqueIds((p + [h]) + todo[1..]) &&
      Swept(todo, now) == [h] + Swept(todo[1..], now)
  {
    var n, t, xs := todo[0], todo[1..], p + todo;
    var v := Classify(n, now);
    var h := if v.Keep? then n.(color := v.color) else n;
    var ys := (p + [h]) + t;
    assert xs == (p + [n]) + t;
    assert |ys| == |xs| && forall i :: 0 <= i < |xs| ==> ys[i].id == xs[i].id;
    if v.Keep? && n.color != v.color {
      FirstAfterPrefix(p, todo);
      assert RecolorIn(xs, n, v.color) == ys;
    }
  }

  lemma ConsPrefix(p: seq<Notification>, h: Notification, a: seq<Notification>, todo: seq<Notification>)
    requires todo != []
    ensures (p + [h]) + a == p + ([h] + a)
    ensures ([h] + a != todo) == (h != todo[0] || a != todo[1..])
  {
    if [h] + a == todo {
      assert ([h] + a)[1..] == a;
    }
    if h == todo[0] && a == todo[1..] {
      assert todo == [todo[0]] + todo[1..];
    }
  }

  /** Processing the rest of the snapshot with the processed prefix p in
      front of it: the prefix stays, the rest is swept, and `changed`
      records whether the sweep altered anything. */
  lemma {:induction false} SweepAfterPrefix(p: seq<Notification>, todo: seq<Notification>, now: int, changed: bool)
    requires UniqueIds(p + todo)
    requires NoZeroLifetime(todo, now)
    ensures Sweep(todo, p + todo, now, changed) ==
      SweepResult(p + Swept(todo, now), changed || Swept(todo, now) != todo, false)
    decreases |todo|
  {
    if todo == [] {
      assert p + todo == p;
    } else {
      var n, t := todo[0], todo[1..];
      NoZeroLifetimeTail(todo, now);
      var v := Classify(n, now);
      if v.Expire? {
        ExpireStep(p, todo, now, changed);
        SweepAfterPrefix(p, t, now, true);
      } else {
        var h := if v.Keep? then n.(color := v.color) else n;
        KeepStep(p, todo, now, changed);
        SweepAfterPrefix(p + [h], t, now, changed || h != n);
        ConsPrefix(p, h, Swept(t, now), todo);
      }
    }
  }

  /** A pass over a queue with unique ids and no zero lifetime does not
      fail, ends in Swept, and reports a change exactly when it made one. */
  lemma WatcherPassMeaning(q: seq<Notification>, now: int)
    requires UniqueIds(q) && NoZeroLifetime(q, now)
    ensures WatcherPass(q, now) == SweepResult(Swept(q, now), Swept(q, now) != q, false)
  {
    var e: seq<Notification> := [];
    assert e + q == q;
    assert e + Swept(q, now) == Swept(q, now);
    SweepAfterPrefix(e, q, now, false);
    assert WatcherPass(q, now) == Sweep(q, e + q, now, false);
  }

  /** A note the watcher leaves alone: it has no time or expiry, or it
      already carries the colour its age calls for. */
  predicate Current(n: Notification, now: int) {
    Classify(n, now) == Skip || Classify(n, now) == Keep(n.color)
  }

  /** After a pass, no note is due for removal and each one that has a time
      and an expiry carries the colour its age calls for. */
  lemma {:induction false} SweptIsCurrent(q: seq<Notification>, now: int)
    requires NoZeroLifetime(q, now)
    ensures forall k :: 0 <= k < |Swept(q, now)| ==> Current(Swept(q, now)[k], now)
  {
    if q != [] {
      var t := q[1..];
      NoZeroLifetimeTail(q, now);
      SweptIsCurrent(t, now);
      var r, st := Swept(q, now), Swept(t, now);
      var v := Classify(q[0], now);
      if !v.Expire? {
        var h := if v.Keep? then q[0].(color := v.color) else q[0];
        if v.Keep? {
          ClassifyIgnoresColor(q[0], v.color, now);
        }
        assert Current(h, now);
        assert r == [h] + st;
        forall k | 0 <= k < |r| ensures Current(r[k], now) {
          if k > 0 {
            assert r[k] == st[k - 1];
          }
        }
      }
    }
  }

  /** A second pass at the same instant changes nothing. */
  lemma {:induction false} SweptIdempotent(q: seq<Notification>, now: int)
    ensures Swept(Swept(q, now), now) == Swept(q, now)
  {
    if q != [] {
      SweptIdempotent(q[1..], now);
      var v := Classify(q[0], now);
      if !v.Expire? {
        var h := if v.Keep? then q[0].(color := v.color) else q[0];
        var r := [h] + Swept(q[1..], now);
        assert r[0] == h && r[1..] == Swept(q[1..], now);
        if v.Keep? {
          ClassifyIgnoresColor(q[0], v.color, now);
        }
      }
    }
  }

  /** The notes a pass keeps are notes of the input, up to colour. */
  lemma {:induction false} SweptFromInput(q: seq<Notification>, now: int)
    ensures forall x :: x in Swept(q, now) ==> exists y :: y in q && x == y.(color := x.color)
  {
    if q != [] {
      SweptFromInput(q[1..], now);
      forall x | x in Swept(q, now) ensures exists y :: y in q && x == y.(color := x.color) {
        if x in Swept(q[1..], now) {
          var y :| y in q[1..] && x == y.(color := x.color);
          assert y in q;
        } else {
          assert q[0] in q && x == q[0].(color := x.color);
        }
      }
    }
  }

  /** The tail of a queue keeps the invariant, and none of its ids is the head's. */
  lemma QueueInvariantTail(q: seq<Notification>, maxSize: int)
    requires q != [] && QueueInvariant(q, maxSize)
    ensures QueueInvariant(q[1..], maxSize)
    ensures !ContainsId(q[1..], q[0].id)
  {
    var t := q[1..];
    assert forall i :: 0 <= i < |t| ==> t[i] == q[i + 1];
  }

  /** Each id a pass keeps is an id of its input. */
  lemma {:induction false} SweptIdsFromInput(q: seq<Notification>, now: int)
    ensures forall k :: 0 <= k < |Swept(q, now)| ==> ContainsId(q, Swept(q, now)[k].id)
  {
    if q != [] {
      var t := q[1..];
      SweptIdsFromInput(t, now);
      var r := Swept(q, now);
      forall k | 0 <= k < |r| ensures ContainsId(q, r[k].id) {
        var v := Classify(q[0], now);
        if !v.Expire? && k == 0 {
          assert r[0].id == q[0].id;
        } else {
          var k' := if v.Expire? then k else k - 1;
          assert r[k] == Swept(t, now)[k'];
          var m :| 0 <= m < |t| && t[m].id == r[k].id;
          assert q[m + 1] == t[m];
        }
      }
    }
  }

  /** A pass keeps the queue bounded, ids unique and truthy. */
  lemma {:induction false} SweptKeepsInvariant(q: seq<Notification>, maxSize: int, now: int)
    requires QueueInvariant(q, maxSize)
    ensures QueueInvariant(Swept(q, now), maxSize)
  {
    if q != [] {
      var t := q[1..];
      QueueInvariantTail(q, maxSize);
      SweptKeepsInvariant(t, maxSize, now);
      SweptIdsFromInput(t, now);
      var st := Swept(t, now);
      if !Classify(q[0], now).Expire? {
        var r := Swept(q, now);
        var h := r[0];
        assert h.id == q[0].id && r == [h] + st;
        assert forall k :: 0 <= k < |st| ==> st[k].id != h.id;
        assert forall i :: 0 < i < |r| ==> r[i] == st[i - 1];
      }
    }
  }

  /** What the watcher does to a queue whatever it holds: the queue stays
      bounded with unique, truthy ids, even when the pass fails part way. */
  lemma {:induction false} SweepKeepsInvariant(todo: seq<Notification>, q: seq<Notification>, maxSize: int, now: int, changed: bool)
    requires QueueInvariant(q, maxSize)
    ensures QueueInvariant(Sweep(todo, q, now, changed).queue, maxSize)
    decreases |todo|
  {
    if todo != [] {
      var n := todo[0];
      match Classify(n, now) {
        case Skip =>
          SweepKeepsInvariant(todo[1..], q, maxSize, now, changed);
        case DivByZero =>
        case Expire =>
          match IndexOf(q, n) {
            case None =>
            case Some(k) =>
              PopKeepsInvariant(q, maxSize, k);
              assert Remove(q, n).list == PoppedAt(q, k).queue;
              SweepKeepsInvariant(todo[1..], Remove(q, n).list, maxSize, now, true);
          }
        case Keep(c) =>
          var r := RecolorIn(q, n, c);
          assert QueueInvariant(r, maxSize) by {
            assert forall i :: 0 <= i < |r| ==> r[i].id == q[i].id;
          }
          if n.color != c {
            SweepKeepsInvariant(todo[1..], r, maxSize, now, true);
          } else {
            SweepKeepsInvariant(todo[1..], q, maxSize, now, changed);
          }
      }
    }
  }

  /** Every note built by `from_gmail` with LIFETIME has a time and an expiry
      LIFETIME later. */
  predicate GmailTimed(q: seq<Notification>) {
    forall k :: 0 <= k < |q| ==>
      q[k].time.Some? && q[k].expiresAt == Some(q[k].time.value + LIFETIME)
  }

  /** A pass keeps every note's time and expiry. */
  lemma {:induction false} SweptKeepsGmailTimed(q: seq<Notification>, now: int)
    requires GmailTimed(q)
    ensures GmailTimed(Swept(q, now))
  {
    if q != [] {
      assert GmailTimed(q[1..]) by {
        forall k | 0 <= k < |q| - 1 ensures q[1..][k] == q[k + 1] { }
      }
      SweptKeepsGmailTimed(q[1..], now);
      var r := Swept(q, now);
      if !Classify(q[0], now).Expire? {
        forall k | 0 < k < |r| ensures r[k] == Swept(q[1..], now)[k - 1] { }
      }
    }
  }

  /** A queue of Gmail notifications never makes the watcher fail, and it
      is still made of Gmail notifications afterwards. */
  lemma GmailQueueNeverFails(q: seq<Notification>, maxSize: int, now: int)
    requires QueueInvariant(q, maxSize) && GmailTimed(q)
    ensures !WatcherPass(q, now).crashed
    ensures GmailTimed(WatcherPass(q, now).queue)
  {
    assert NoZeroLifetime(q, now);
    WatcherPassMeaning(q, now);
    SweptKeepsGmailTimed(q, now);
  }

  // ---- The controller and the UI's queue ----

  /** The queue shared with the UI: each `put` adds a snapshot. */
  class OutQueue {
    var items: seq<seq<Notification>>

    constructor ()
      ensures items == []
    {
      items := [];
    }

    method Put(snapshot: seq<Notification>)
      modifies this
      ensures items == old(items) + [snapshot]
    {
      items := items + [snapshot];
    }
  }

  /** The local queue and what the UI has been sent. */
  datatype Inbox = Inbox(queue: seq<Notification>, published: seq<seq<Notification>>)

  /** `add_notification` on values: push, then publish a copy of the queue
      unless the push raised. */
  function Added(s: Inbox, maxSize: int, n: Notification): Inbox {
    var r := Pushed(s.queue, maxSize, Some(n));
    Inbox(r.queue, s.published + (if r.raised then [] else [r.queue]))
  }

  /** Adding only appends to what was published, at most one snapshot, and
      the one it appends is the queue after the push. */
  lemma AddedOnlyAppends(s: Inbox, maxSize: int, n: Notification)
    ensures var t := Added(s, maxSize, n);
      s.published <= t.published && |t.published| <= |s.published| + 1 &&
      (t.published != s.published ==> t.published[|t.published| - 1] == t.queue)
  {
  }

  /** Each published snapshot is the queue right after the push, so the UI
      only sees bounded queues with unique ids, the newest note last. */
  lemma AddedPublishesQueue(s: Inbox, maxSize: int, n: Notification)
    requires QueueInvariant(s.queue, maxSize) && maxSize > 0
    ensures var t := Added(s, maxSize, n);
      QueueInvariant(t.queue, maxSize) &&
      t.published == s.published + [t.queue] &&
      (Truthy(n.id) && !ContainsId(s.queue, n.id) ==> t.queue[|t.queue| - 1] == n) &&
      (!Truthy(n.id) || ContainsId(s.queue, n.id) ==> t.queue == s.queue)
  {
    PushKeepsInvariant(s.queue, maxSize, Some(n));
    if Truthy(n.id) && !ContainsId(s.queue, n.id) {
      PushAppends(s.queue, maxSize, n);
    }
  }

  /** `NotificationController`: owns the local queue; the UI's queue is
      shared with the watcher. */
  class NotificationController {
    const queueOut: OutQueue
    const localQueue: FixedQueue

    ghost predicate Valid()
      reads localQueue
    {
      localQueue.Valid()
    }

    function State(): Inbox
      reads localQueue, queueOut
    {
      Inbox(localQueue.queue, queueOut.items)
    }

    /** `__init__` builds `FixedQueue()`; the watcher thread it starts is
        `WatcherRun` below. */
    constructor (outQ: OutQueue)
      ensures Valid() && queueOut == outQ && fresh(localQueue)
      ensures localQueue.maxSize == QUEUE_SIZE && localQueue.queue == []
    {
      queueOut := outQ;
      localQueue := new FixedQueue(QUEUE_SIZE);
    }

    /** `add_notification`: push, then put a copy of the queue. */
    method AddNotification(n: Notification) returns (raised: bool)
      requires Valid()
      modifies localQueue, queueOut
      ensures Valid() && localQueue.maxSize == old(localQueue.maxSize)
      ensures State() == Added(old(State()), localQueue.maxSize, n)
      ensures raised == Pushed(old(localQueue.queue), localQueue.maxSize, Some(n)).raised
    {
      raised := localQueue.Push(Some(n));
      if !raised {
        queueOut.Put(localQueue.queue);
      }
    }

    /** One pass of the watcher loop in `start_watcher`: returns true when
        the pass ended the thread. */
    method WatcherRun(now: int) returns (crashed: bool)
      requires Valid()
      modifies localQueue, queueOut
      ensures Valid() && localQueue.maxSize == old(localQueue.maxSize)
      ensures var r := WatcherPass(old(localQueue.queue), now);
        localQueue.queue == r.queue && crashed == r.crashed &&
        queueOut.items == old(queueOut.items) + (if r.changed && !r.crashed then [r.queue] else [])
    {
      var snapshot := localQueue.queue;
      ghost var target := WatcherPass(snapshot, now);
      SweepKeepsInvariant(snapshot, snapshot, localQueue.maxSize, now, false);
      var q := snapshot;
      var changed := false;
      var i := 0;
      while i < |snapshot|
        invariant 0 <= i <= |snapshot|
        invariant Sweep(snapshot[i..], q, now, changed) == target
        invariant localQueue.queue == snapshot && queueOut.items == old(queueOut.items)
        invariant localQueue.maxSize == old(localQueue.maxSize)
      {
        var note := snapshot[i];
        assert snapshot[i..][0] == note && snapshot[i..][1..] == snapshot[i + 1..];
        SweepHead(snapshot[i..], q, now, changed);
        match Classify(note, now) {
          case Skip =>
          case DivByZero =>
            // ZeroDivisionError: the thread ends here
            localQueue.queue := q;
            return true;
          case Expire =>
            var r := Remove(q, note);
            if r.raised {
              localQueue.queue := q;
              return true;
            }
            q, changed := r.list, true;
          case Keep(color) =>
            if note.color != color {
              q, changed := RecolorIn(q, note, color), true;
            }
        }
        i := i + 1;
      }
      localQueue.queue := q;
      if changed {
        queueOut.Put(q);
      }
      return false;
    }
  }

  // ---- The history fetch behind a push ----

  /** A history record: the message ids of its `messagesAdded` entries (an
      absent list is empty). */
  datatype HistoryRecord = HistoryRecord(messagesAdded: seq<string>)

  /** The `history.list` response: `history` (absent is empty) and its
      `historyId`, if any. */
  datatype HistoryResponse = HistoryResponse(history: seq<HistoryRecord>, historyId: Option<string>)

  /** The Gmail API calls the fetch makes; None is a call that raised. */
  datatype GmailApi = GmailApi(
    listHistory: string -> Option<HistoryResponse>,
    getMessage: string -> Option<GmailMessage>)

  /** `any(lbl in labelIds for lbl in ["SENT", "DRAFT"])`. */
  predicate SentOrDraft(msg: GmailMessage) {
    "SENT" in msg.labelIds || "DRAFT" in msg.labelIds
  }

  /** The skip test is `any` over the two labels. */
  lemma SentOrDraftIsAnyLabel(msg: GmailMessage)
    ensures SentOrDraft(msg) <==> exists l :: l in ["SENT", "DRAFT"] && l in msg.labelIds
  {
    if "DRAFT" in msg.labelIds {
      assert "DRAFT" in ["SENT", "DRAFT"];
    }
  }

  /** The ids the nested loops visit, in order. */
  function AddedIds(records: seq<HistoryRecord>): seq<string> {
    if records == [] then [] else records[0].messagesAdded + AddedIds(records[1..])
  }

  /** `addNotification`: build the notification and add it; what it raises
      is logged and dropped. */
  function AddFromGmail(s: Inbox, maxSize: int, msgId: string, msg: GmailMessage, env: Environment): Inbox {
    Added(s, maxSize, FromGmail(msgId, msg, LIFETIME, env))
  }

  datatype Delivery = Delivery(inbox: Inbox, failed: bool)

  /** The nested loops over the added messages: fetch each, skip sent and
      draft mail, add the rest; a fetch that raises ends the loops. */
  function Deliver(s: Inbox, maxSize: int, ids: seq<string>, api: GmailApi, env: Environment): Delivery
    decreases |ids|
  {
    if ids == [] then Delivery(s, false)
    else match api.getMessage(ids[0])
      case None => Delivery(s, true)
      case Some(msg) =>
        var next := if SentOrDraft(msg) then s else AddFromGmail(s, maxSize, ids[0], msg, env);
        Deliver(next, maxSize, ids[1..], api, env)
  }

  /** Delivery only appends to what was published, at most one snapshot per
      message id. */
  lemma {:induction false} DeliverOnlyAppends(s: Inbox, maxSize: int, ids: seq<string>, api: GmailApi, env: Environment)
    ensures var d := Deliver(s, maxSize, ids, api, env);
      s.published <= d.inbox.published && |d.inbox.published| <= |s.published| + |ids|
    decreases |ids|
  {
    if ids != [] && api.getMessage(ids[0]).Some? {
      var msg := api.getMessage(ids[0]).value;
      var next := if SentOrDraft(msg) then s else AddFromGmail(s, maxSize, ids[0], msg, env);
      AddedOnlyAppends(s, maxSize, FromGmail(ids[0], msg, LIFETIME, env));
      DeliverOnlyAppends(next, maxSize, ids[1..], api, env);
    }
  }

  lemma AddedIdsAt(records: seq<HistoryRecord>, i: nat)
    requires i < |records|
    ensures AddedIds(records[i..]) == records[i].messagesAdded + AddedIds(records[i + 1..])
  {
    assert records[i..][0] == records[i] && records[i..][1..] == records[i + 1..];
  }

  lemma SliceCons(xs: seq<string>, j: nat, rest: seq<string>)
    requires j < |xs|
    ensures xs[j..] + rest == [xs[j]] + (xs[j + 1..] + rest)
  {
    assert xs[j..] == [xs[j]] + xs[j + 1..];
  }

  /** One iteration of the inner loop. */
  lemma DeliverCons(s: Inbox, maxSize: int, id: string, rest: seq<string>, api: GmailApi, env: Environment)
    ensures api.getMessage(id).None? ==> Deliver(s, maxSize, [id] + rest, api, env) == Delivery(s, true)
    ensures api.getMessage(id).Some? ==>
      var msg := api.getMessage(id).value;
      Deliver(s, maxSize, [id] + rest, api, env) ==
        Deliver(if SentOrDraft(msg) then s else AddFromGmail(s, maxSize, id, msg, env), maxSize, rest, api, env)
  {
    assert ([id] + rest)[0] == id && ([id] + rest)[1..] == rest;
  }

  /** Delivery keeps the queue bounded with unique ids, and every note it
      holds was there before or was built from a fetched message in ids
      that is neither sent nor a draft. */
  lemma {:induction false} DeliverOnlyInbound(s: Inbox, maxSize: int, ids: seq<string>, api: GmailApi, env: Environment)
    requires QueueInvariant(s.queue, maxSize)
    ensures var d := Deliver(s, maxSize, ids, api, env);
      QueueInvariant(d.inbox.queue, maxSize) &&
      forall x :: x in d.inbox.queue ==> (x in s.queue ||
        exists k :: (0 <= k < |ids| && api.getMessage(ids[k]).Some? &&
          !SentOrDraft(api.getMessage(ids[k]).value) &&
          x == FromGmail(ids[k], api.getMessage(ids[k]).value, LIFETIME, env)))
    decreases |ids|
  {
    if ids != [] && api.getMessage(ids[0]).Some? {
      var msg := api.getMessage(ids[0]).value;
      var next := if SentOrDraft(msg) then s else AddFromGmail(s, maxSize, ids[0], msg, env);
      var n := FromGmail(ids[0], msg, LIFETIME, env);
      PushKeepsInvariant(s.queue, maxSize, Some(n));
      assert forall x :: x in next.queue ==> x in s.queue || (!SentOrDraft(msg) && x == n) by {
        if !SentOrDraft(msg) {
          var r := Pushed(s.queue, maxSize, Some(n));
          assert forall x :: x in r.queue ==> x in s.queue || x == n by {
            if r.queue != s.queue && |s.queue| >= maxSize && s.queue != [] {
              assert r.queue == s.queue[1..] + [n];
              assert forall x :: x in s.queue[1..] ==> x in s.queue;
            }
          }
        }
      }
      DeliverOnlyInbound(next, maxSize, ids[1..], api, env);
      var d := Deliver(s, maxSize, ids, api, env);
      forall x | x in d.inbox.queue
        ensures x in s.queue || exists k :: (0 <= k < |ids| && api.getMessage(ids[k]).Some? &&
          !SentOrDraft(api.getMessage(ids[k]).value) &&
          x == FromGmail(ids[k], api.getMessage(ids[k]).value, LIFETIME, env))
      {
        if x !in next.queue {
          var k :| 0 <= k < |ids[1..]| && api.getMessage(ids[1..][k]).Some? &&
            !SentOrDraft(api.getMessage(ids[1..][k]).value) &&
            x == FromGmail(ids[1..][k], api.getMessage(ids[1..][k]).value, LIFETIME, env);
          assert ids[1..][k] == ids[k + 1];
        } else if x !in s.queue {
          assert ids[0] == ids[0];
        }
      }
    }
  }

  /** When every fetched message is sent mail or a draft, nothing is added
      and nothing is published. */
  lemma {:induction false} DeliverIgnoresOutbound(s: Inbox, maxSize: int, ids: seq<string>, api: GmailApi, env: Environment)
    requires forall k :: 0 <= k < |ids| ==> api.getMessage(ids[k]).Some? && SentOrDraft(api.getMessage(ids[k]).value)
    ensures Deliver(s, maxSize, ids, api, env) == Delivery(s, false)
    decreases |ids|
  {
    if ids != [] {
      assert forall k :: 0 <= k < |ids[1..]| ==> ids[1..][k] == ids[k + 1];
      DeliverIgnoresOutbound(s, maxSize, ids[1..], api, env);
    }
  }

  /** Delivery adds only Gmail notifications. */
  lemma {:induction false} DeliverKeepsGmailTimed(s: Inbox, maxSize: int, ids: seq<string>, api: GmailApi, env: Environment)
    requires QueueInvariant(s.queue, maxSize) && GmailTimed(s.queue)
    ensures GmailTimed(Deliver(s, maxSize, ids, api, env).inbox.queue)
  {
    DeliverOnlyInbound(s, maxSize, ids, api, env);
    var q := Deliver(s, maxSize, ids, api, env).inbox.queue;
    forall k | 0 <= k < |q| ensures q[k].time.Some? && q[k].expiresAt == Some(q[k].time.value + LIFETIME) {
      assert q[k] in q;
      if q[k] in s.queue {
        var m :| 0 <= m < |s.queue| && s.queue[m] == q[k];
      }
    }
  }

  datatype FetchResult = FetchResult(inbox: Inbox, cursor: Option<string>, raised: bool)

  /** The cursor the query starts from: the saved one when it is truthy,
      otherwise the id the push carried. */
  function StartId(cursor: Option<string>, newId: string): (start: string)
    ensures Truthy(cursor) ==> start == cursor.value
    ensures !Truthy(cursor) ==> start == newId
  {
    if Truthy(cursor) then cursor.value else newId
  }

  /** `fetch_latest_email_from_history` on values; a raise leaves the saved
      cursor as it was. */
  function FetchHistory(s: Inbox, maxSize: int, cursor: Option<string>, newId: string, api: GmailApi, env: Environment): (r: FetchResult)
    ensures r.raised ==> r.cursor == cursor
    ensures !r.raised ==> r.cursor.Some?
  {
    match api.listHistory(StartId(cursor, newId))
    case None => FetchResult(s, cursor, true)
    case Some(resp) =>
      if resp.history == [] then FetchResult(s, Some(newId), false)
      else
        var d := Deliver(s, maxSize, AddedIds(resp.history), api, env);
        if d.failed then FetchResult(d.inbox, cursor, true)
        else FetchResult(d.inbox, Some(match resp.historyId case Some(h) => h case None => newId), false)
  }

  /** The cursor protocol: an empty delta adds nothing and saves the pushed
      id; a completed batch saves the response's id, or the pushed id when
      it has none; a failure saves nothing. */
  lemma FetchHistoryCursor(s: Inbox, maxSize: int, cursor: Option<string>, newId: string, api: GmailApi, env: Environment)
    ensures var r := FetchHistory(s, maxSize, cursor, newId, api, env);
      var resp := api.listHistory(StartId(cursor, newId));
      (resp.None? ==> r == FetchResult(s, cursor, true)) &&
      (resp.Some? && resp.value.history == [] ==> r == FetchResult(s, Some(newId), false)) &&
      (resp.Some? && resp.value.history != [] && !r.raised ==>
        r.cursor == Some(if resp.value.historyId.Some? then resp.value.historyId.value else newId)) &&
      (r.raised ==> r.cursor == cursor)
  {
  }

  /** Whatever the responses, a fetch keeps the queue bounded with unique
      ids and adds only notifications of inbound mail. */
  lemma FetchHistoryKeepsInvariant(s: Inbox, maxSize: int, cursor: Option<string>, newId: string, api: GmailApi, env: Environment)
    requires QueueInvariant(s.queue, maxSize) && GmailTimed(s.queue)
    ensures var r := FetchHistory(s, maxSize, cursor, newId, api, env);
      QueueInvariant(r.inbox.queue, maxSize) && GmailTimed(r.inbox.queue)
  {
    var resp := api.listHistory(StartId(cursor, newId));
    if resp.Some? && resp.value.history != [] {
      DeliverOnlyInbound(s, maxSize, AddedIds(resp.value.history), api, env);
      DeliverKeepsGmailTimed(s, maxSize, AddedIds(resp.value.history), api, env);
    }
  }

  /** The persisted cursor (`last_history_id.txt`). */
  class CursorStore {
    var saved: Option<string>

    constructor (saved: Option<string>)
      ensures this.saved == saved
    {
      this.saved := saved;
    }

    method Load() returns (r: Option<string>)
      ensures r == saved
    {
      r := saved;
    }

    method Save(id: string)
      modifies this
      ensures saved == Some(id)
    {
      saved := Some(id);
    }
  }

  /** `addNotification(msg_id, msg)`. */
  method AddNotificationFromGmail(ctl: NotificationController, msgId: string, msg: GmailMessage, env: Environment)
    requires ctl.Valid()
    modifies ctl.localQueue, ctl.queueOut
    ensures ctl.Valid() && ctl.localQueue.maxSize == old(ctl.localQueue.maxSize)
    ensures ctl.State() == AddFromGmail(old(ctl.State()), ctl.localQueue.maxSize, msgId, msg, env)
  {
    var n := FromGmail(msgId, msg, LIFETIME, env);
    var _ := ctl.AddNotification(n);
  }

  /** `fetch_latest_email_from_history(gmail, new_history_id)`; returns
      true when a Gmail call raised. */
  method FetchLatestEmailFromHistory(ctl: NotificationController, store: CursorStore, newId: string,
                                     api: GmailApi, env: Environment) returns (raised: bool)
    requires ctl.Valid()
    modifies ctl.localQueue, ctl.queueOut, store
    ensures ctl.Valid() && ctl.localQueue.maxSize == old(ctl.localQueue.maxSize)
    ensures var r := FetchHistory(old(ctl.State()), ctl.localQueue.maxSize, old(store.saved), newId, api, env);
      ctl.State() == r.inbox && store.saved == r.cursor && raised == r.raised
  {
    var last := store.Load();
    var start := if last.Some? && last.value != "" then last.value else newId;
    var response := api.listHistory(start);
    if response.None? {
      return true;
    }
    var records := response.value.history;
    if records == [] {
      store.Save(newId);
      return false;
    }
    ghost var target := Deliver(ctl.State(), ctl.localQueue.maxSize, AddedIds(records), api, env);
    var i := 0;
    while i < |records|
      invariant 0 <= i <= |records|
      invariant ctl.Valid() && ctl.localQueue.maxSize == old(ctl.localQueue.maxSize)
      invariant store.saved == old(store.saved)
      invariant Deliver(ctl.State(), ctl.localQueue.maxSize, AddedIds(records[i..]), api, env) == target
    {
      var added := records[i].messagesAdded;
      ghost var rest := AddedIds(records[i + 1..]);
      AddedIdsAt(records, i);
      assert added[0..] == added;
      var j := 0;
      while j < |added|
        invariant 0 <= j <= |added|
        invariant ctl.Valid() && ctl.localQueue.maxSize == old(ctl.localQueue.maxSize)
        invariant store.saved == old(store.saved)
        invariant Deliver(ctl.State(), ctl.localQueue.maxSize, added[j..] + rest, api, env) == target
      {
        var msgId := added[j];
        SliceCons(added, j, rest);
        DeliverCons(ctl.State(), ctl.localQueue.maxSize, msgId, added[j + 1..] + rest, api, env);
        var msg := api.getMessage(msgId);
        if msg.None? {
          return true;
        }
        if !SentOrDraft(msg.value) {
          AddNotificationFromGmail(ctl, msgId, msg.value, env);
        }
        j := j + 1;
      }
      assert added[j..] + rest == rest;
      i := i + 1;
    }
    assert records[i..] == [];
    store.Save(match response.value.historyId case Some(h) => h case None => newId);
    return false;
  }

  // ---- The push endpoint ----

  /** The Pub/Sub `message` object: its `data` member, if present. */
  datatype PubSubMessage = PubSubMessage(data: Option<string>)

  /** The request body as `request.get_json(silent=True)` sees it: not JSON
      at all, or an object whose `message` member may be missing. */
  datatype PushBody = NotJson | JsonObject(message: Option<PubSubMessage>)

  /** The decoded payload as `json.loads(...).get("historyId")` sees it. */
  datatype Payload = Unparsable | PayloadObject(historyId: Option<string>)

  /** The library decoders: base64 then UTF-8 (None when either raises)
      and the JSON parser. */
  datatype Decoders = Decoders(decode: string -> Option<string>, parse: string -> Payload)

  /** What the endpoint does: reject, fail with an uncaught decoding error,
      acknowledge, or fetch the history and acknowledge. */
  datatype PushAction = Reject | DecodeError | Ack | FetchThenAck(historyId: string)

  function PushDecision(body: PushBody, dec: Decoders): (a: PushAction)
    ensures a == Reject <==> body.NotJson? || body.message.None?
    ensures a.FetchThenAck? ==> a.historyId != ""
    ensures a.DecodeError? <==>
      body.JsonObject? && body.message.Some? && Truthy(body.message.value.data) &&
      dec.decode(body.message.value.data.value).None?
  {
    match body
    case NotJson => Reject
    case JsonObject(message) =>
      match message
      case None => Reject
      case Some(m) =>
        if !Truthy(m.data) then Ack
        else match dec.decode(m.data.value)
          case None => DecodeError
          case Some(payload) =>
            match dec.parse(payload)
            case Unparsable => Ack
            case PayloadObject(h) => if Truthy(h) then FetchThenAck(h.value) else Ack
  }

  /** The HTTP status each action answers with; an uncaught exception is
      Flask's 500. */
  function Status(a: PushAction): (code: int)
    ensures code in {200, 400, 500}
    ensures code == 400 <==> a == Reject
    ensures code == 500 <==> a == DecodeError
  {
    match a
    case Reject => 400
    case DecodeError => 500
    case _ => 200
  }

  /** 400 exactly for a body that is not JSON or has no message; a fetch
      only for a decoded payload with a truthy historyId; 500 only when the
      data does not decode; 200 otherwise. */
  lemma PushStatusCases(body: PushBody, dec: Decoders)
    ensures Status(PushDecision(body, dec)) == 400 <==> body.NotJson? || body.message.None?
    ensures PushDecision(body, dec).FetchThenAck? <==>
      body.JsonObject? && body.message.Some? && Truthy(body.message.value.data) &&
      dec.decode(body.message.value.data.value).Some? &&
      var p := dec.parse(dec.decode(body.message.value.data.value).value);
      p.PayloadObject? && Truthy(p.historyId)
    ensures Status(PushDecision(body, dec)) in {200, 400, 500}
    ensures Status(PushDecision(body, dec)) == 500 <==> PushDecision(body, dec).DecodeError?
    ensures Status(PushDecision(body, dec)) == 500 <==>
      body.JsonObject? && body.message.Some? && Truthy(body.message.value.data) &&
      dec.decode(body.message.value.data.value).None?
  {
  }

  /** `receive_push`: the status it answers with; a fetch that raised is
      logged and still acknowledged. */
  method ReceivePush(ctl: NotificationController, store: CursorStore, body: PushBody, dec: Decoders,
                     api: GmailApi, env: Environment) returns (status: int)
    requires ctl.Valid()
    modifies ctl.localQueue, ctl.queueOut, store
    ensures ctl.Valid() && ctl.localQueue.maxSize == old(ctl.localQueue.maxSize)
    ensures status == Status(PushDecision(body, dec))
    ensures var a := PushDecision(body, dec);
      if a.FetchThenAck? then
        var r := FetchHistory(old(ctl.State()), ctl.localQueue.maxSize, old(store.saved), a.historyId, api, env);
        ctl.State() == r.inbox && store.saved == r.cursor
      else ctl.State() == old(ctl.State()) && store.saved == old(store.saved)
  {
    var a := PushDecision(body, dec);
    if a.FetchThenAck? {
      var _ := FetchLatestEmailFromHistory(ctl, store, a.historyId, api, env);
    }
    status := Status(a);
  }
}
