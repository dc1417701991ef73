/** The IMAP IDLE watcher: its notification stack, the aging pass of
    `Idler.idle`, the synchronisation pass `dosync2`, the reconnect loop of
    `connect_imap` and the skeleton of the idle loop. Times are whole seconds;
    the source's minutes and fractions are compared by cross-multiplication. */
module MfaImapMail {
  import opened PyLists

  const RETRY_DELAY_SECONDS: nat := 30
  const MAX_RETRIES: nat := 20
  /** Number of notifications shown. */
  const STACK_SIZE: nat := 5
  /** Minutes before a code expires. */
  const CODE_DURATION: nat := 5
  const CODE_DURATION_SECONDS: nat := 60 * CODE_DURATION
  /** How many of the newest search results `dosync2` keeps. */
  const SEARCH_WINDOW: nat := 800

  datatype Color = Green | Yellow | Blue

  /** This file's `Notification`: the mail's IMAP id, its delivery time, the
      code as the matched text, the envelope text and a colour. */
  datatype Note = Note(id: string, time: int, code: string, body: string, color: Color)

  // ---- Aging ----

  /** `mins_old >= CODE_DURATION`. */
  predicate Expired(note: Note, now: int) {
    now - note.time >= CODE_DURATION_SECONDS
  }

  function IsExpired(now: int): Note -> bool {
    n => Expired(n, now)
  }

  function IsFresh(now: int): Note -> bool {
    n => !Expired(n, now)
  }

  /** The colour for `fraction = mins_old / CODE_DURATION`: green below 1/3,
      yellow below 2/3, blue otherwise. */
  function AgeColor(elapsed: int): (c: Color)
    ensures c == Green <==> 3 * elapsed < CODE_DURATION_SECONDS
    ensures c == Blue <==> 3 * elapsed >= 2 * CODE_DURATION_SECONDS
  {
    if 3 * elapsed < CODE_DURATION_SECONDS then Green
    else if 3 * elapsed < 2 * CODE_DURATION_SECONDS then Yellow
    else Blue
  }

  /** Five-minute lifetime: 99 s is green, exactly 100 s (a third) is yellow,
      150 s yellow, 200 s blue, 250 s blue, and 300 s expires. */
  lemma AgeScenario(t: int)
    ensures AgeColor(99) == Green && AgeColor(100) == Yellow && AgeColor(150) == Yellow
    ensures AgeColor(199) == Yellow && AgeColor(200) == Blue && AgeColor(250) == Blue
    ensures !Expired(Note("", t - 299, "", "", Green), t) && Expired(Note("", t - 300, "", "", Green), t)
  {
  }

  /** What the first loop of the aging block does to one note. */
  function Recolored(note: Note, now: int): Note {
    if Expired(note, now) then note else note.(color := AgeColor(now - note.time))
  }

  function RecoloredAll(q: seq<Note>, now: int): (r: seq<Note>)
    ensures |r| == |q| && forall k :: 0 <= k < |q| ==> r[k] == Recolored(q[k], now)
  {
    seq(|q|, k requires 0 <= k < |q| => Recolored(q[k], now))
  }

  /** The net effect of the aging block: expired notes are gone, the others
      are recoloured in place. */
  function Aged(q: seq<Note>, now: int): (r: seq<Note>)
    ensures |r| <= |q|
  {
    if q == [] then []
    else if Expired(q[0], now) then Aged(q[1..], now)
    else [q[0].(color := AgeColor(now - q[0].time))] + Aged(q[1..], now)
  }

  /** Nothing expired survives, and every survivor carries its age's colour
      and comes from the input with the same id, time, code and body. */
  lemma {:induction false} AgedSurvivors(q: seq<Note>, now: int)
    ensures forall n :: n in Aged(q, now) ==>
      !Expired(n, now) && n.color == AgeColor(now - n.time) &&
      exists m :: m in q && m == n.(color := m.color)
  {
    if q != [] {
      AgedSurvivors(q[1..], now);
      var h := q[0];
      forall n | n in Aged(q, now)
        ensures !Expired(n, now) && n.color == AgeColor(now - n.time) &&
          exists m :: m in q && m == n.(color := m.color)
      {
        if n in Aged(q[1..], now) {
          var m :| m in q[1..] && m == n.(color := m.color);
          assert m in q;
        } else {
          assert n == h.(color := AgeColor(now - h.time));
          assert h == n.(color := h.color);
        }
      }
    }
  }

  /** Every note that has not expired survives, and survivors keep the
      order they had: the pass is "keep the fresh ones, then recolour". */
  lemma {:induction false} AgedIsFilterThenRecolor(q: seq<Note>, now: int)
    ensures Aged(q, now) == RecoloredAll(Filter(q, IsFresh(now)), now)
  {
    if q != [] {
      AgedIsFilterThenRecolor(q[1..], now);
      var rest := Filter(q[1..], IsFresh(now));
      if !Expired(q[0], now) {
        assert RecoloredAll([q[0]] + rest, now) == [Recolored(q[0], now)] + RecoloredAll(rest, now);
      }
    }
  }

  /** Aging twice at the same instant is aging once. */
  lemma {:induction false} AgedIdempotent(q: seq<Note>, now: int)
    ensures Aged(Aged(q, now), now) == Aged(q, now)
  {
    if q != [] {
      AgedIdempotent(q[1..], now);
      if !Expired(q[0], now) {
        var h := q[0].(color := AgeColor(now - q[0].time));
        var a := [h] + Aged(q[1..], now);
        assert a[0] == h && a[1..] == Aged(q[1..], now);
      }
    }
  }

  /** The two loops of the aging block, "collect the expired, then remove
      each", end in the same list as Aged. */
  lemma TwoPassAging(q: seq<Note>, now: int)
    ensures RemoveEach(RecoloredAll(q, now), Filter(RecoloredAll(q, now), IsExpired(now))) == Aged(q, now)
  {
    var r := RecoloredAll(q, now);
    RemoveEachFiltered(r, IsExpired(now), IsFresh(now));
    AgedIsFilterThenRecolor(q, now);
    RecolorCommutesWithFilter(q, now);
    RecolorKeepsExpired(q, now);
  }

  /** Recolouring keeps every note's age, so it does not change which notes
      are fresh. */
  lemma {:induction false} RecolorCommutesWithFilter(q: seq<Note>, now: int)
    ensures Filter(RecoloredAll(q, now), IsFresh(now)) ==
            RecoloredAll(Filter(q, IsFresh(now)), now)
  {
    if q != [] {
      var r := RecoloredAll(q, now);
      assert r[0] == Recolored(q[0], now);
      assert r[1..] == RecoloredAll(q[1..], now);
      RecolorCommutesWithFilter(q[1..], now);
      var rest := Filter(q[1..], IsFresh(now));
      if !Expired(q[0], now) {
        assert RecoloredAll([q[0]] + rest, now) == [Recolored(q[0], now)] + RecoloredAll(rest, now);
      }
    }
  }

  /** Recolouring leaves the expired notes as they were. */
  lemma {:induction false} RecolorKeepsExpired(q: seq<Note>, now: int)
    ensures Filter(RecoloredAll(q, now), IsExpired(now)) == Filter(q, IsExpired(now))
  {
    if q != [] {
      var r := RecoloredAll(q, now);
      assert r[0] == Recolored(q[0], now);
      assert r[1..] == RecoloredAll(q[1..], now);
      RecolorKeepsExpired(q[1..], now);
    }
  }

  // ---- The notification stack ----

  /** `FixedStack.push` as a value: append, then drop the oldest when over
      STACK_SIZE. */
  function StackPushed(s: seq<Note>, x: Note): (r: seq<Note>)
    ensures r != [] && r[|r| - 1] == x
    ensures |r| == if |s| + 1 > STACK_SIZE then |s| else |s| + 1
  {
    var t := s + [x];
    if |t| > STACK_SIZE then t[1..] else t
  }

  /** The new note ends the stack, the others keep their order, at most the
      first one is dropped, and the bound is kept. */
  lemma StackPushProperties(s: seq<Note>, x: Note)
    requires |s| <= STACK_SIZE
    ensures var r := StackPushed(s, x);
      |r| <= STACK_SIZE && |r| > 0 && r[|r| - 1] == x &&
      r[..|r| - 1] == (if |s| == STACK_SIZE then s[1..] else s)
  {
    var r := StackPushed(s, x);
    assert r[..|r| - 1] == (if |s| == STACK_SIZE then s[1..] else s);
  }

  /** No id check: pushing a note twice keeps both copies. */
  lemma StackKeepsDuplicates(x: Note)
    ensures StackPushed(StackPushed([], x), x) == [x, x]
  {
  }

  /** Reverse, pop the last element, reverse back: the first element is dropped. */
  lemma ReversePopReverse(t: seq<Note>)
    requires t != []
    ensures Reverse(Reverse(t)[..|t| - 1]) == t[1..]
  {
    var rt := Reverse(t);
    var u := rt[..|t| - 1];
    var ru := Reverse(u);
    assert |ru| == |t[1..]|;
    forall k | 0 <= k < |u| ensures ru[k] == t[1..][k] {
      var m := |u| - 1 - k;
      assert ru[k] == u[m];
      assert u[m] == rt[m];
      assert rt[m] == t[|t| - 1 - m];
    }
    assert ru == t[1..];
  }

  class FixedStack {
    var stack: seq<Note>

    ghost predicate Valid()
      reads this
    {
      |stack| <= STACK_SIZE
    }

    constructor ()
      ensures Valid() && stack == []
    {
      stack := [];
    }

    method Push(data: Note)
      modifies this
      ensures stack == StackPushed(old(stack), data)
      ensures old(Valid()) ==> Valid()
    {
      stack := stack + [data];
      if |stack| > STACK_SIZE {
        ghost var t := stack;
        stack := Reverse(stack);
        stack := stack[..|stack| - 1];
        stack := Reverse(stack);
        ReversePopReverse(t);
      }
    }

    /** `list.remove`: ValueError when the note is not there. */
    method Remove(note: Note) returns (raised: bool)
      modifies this
      ensures Removal(stack, raised) == PyLists.Remove(old(stack), note)
      ensures old(Valid()) ==> Valid()
    {
      var r := PyLists.Remove(stack, note);
      stack := r.list;
      raised := r.raised;
    }
  }

  /** The first loop of the aging block: recolour each note that is not
      expired and collect the expired ones, in stack order. */
  method RecolorPass(s: FixedStack, now: int) returns (toRemove: seq<Note>)
    modifies s
    ensures s.stack == RecoloredAll(old(s.stack), now)
    ensures toRemove == Filter(old(s.stack), IsExpired(now))
  {
    ghost var q := s.stack;
    toRemove := [];
    var i := 0;
    while i < |s.stack|
      invariant 0 <= i <= |s.stack| == |q|
      invariant forall k :: 0 <= k < i ==> s.stack[k] == Recolored(q[k], now)
      invariant forall k :: i <= k < |q| ==> s.stack[k] == q[k]
      invariant toRemove == Filter(q[..i], IsExpired(now))
    {
      var note := s.stack[i];
      assert q[..i + 1] == q[..i] + [note];
      FilterAppend(q[..i], [note], IsExpired(now));
      if now - note.time >= CODE_DURATION_SECONDS {
        toRemove := toRemove + [note];
      } else {
        s.stack := s.stack[i := note.(color := AgeColor(now - note.time))];
      }
      i := i + 1;
    }
    assert q[..i] == q;
  }

  /** The second loop: `remove` each collected note, ignoring ValueError. */
  method RemoveCollected(s: FixedStack, toRemove: seq<Note>)
    modifies s
    ensures s.stack == RemoveEach(old(s.stack), toRemove)
  {
    ghost var r := s.stack;
    var j := 0;
    while j < |toRemove|
      invariant 0 <= j <= |toRemove|
      invariant RemoveEach(s.stack, toRemove[j..]) == RemoveEach(r, toRemove)
    {
      assert toRemove[j..][0] == toRemove[j] && toRemove[j..][1..] == toRemove[j + 1..];
      var _ := s.Remove(toRemove[j]);
      j := j + 1;
    }
    assert toRemove[j..] == [];
  }

  /** The aging block of `Idler.idle` on the shared stack. */
  method AgeNotes(s: FixedStack, now: int)
    modifies s
    ensures s.stack == Aged(old(s.stack), now)
    ensures old(s.Valid()) ==> s.Valid()
  {
    ghost var q := s.stack;
    var toRemove := RecolorPass(s, now);
    RecolorKeepsExpired(q, now);
    RemoveCollected(s, toRemove);
    TwoPassAging(q, now);
  }

  // ---- dosync2 ----

  /** Characters `str.split()` splits on (the ASCII ones). */
  predicate IsSpace(c: char) {
    c == ' ' || (9 <= c as int <= 13) || (0x1c <= c as int <= 0x1f)
  }

  /** The length of the run of non-space characters that starts `s`. */
  function WordLength(s: string): (k: nat)
    ensures k <= |s|
    ensures s != [] && !IsSpace(s[0]) ==> k >= 1
  {
    if s != [] && !IsSpace(s[0]) then 1 + WordLength(s[1..]) else 0
  }

  /** The run is maximal: no space inside it, and a space right after it
      unless it reaches the end. */
  lemma {:induction false} WordLengthIsMaximalRun(s: string)
    ensures forall i :: 0 <= i < WordLength(s) ==> !IsSpace(s[i])
    ensures WordLength(s) < |s| ==> IsSpace(s[WordLength(s)])
    decreases |s|
  {
    if s != [] && !IsSpace(s[0]) {
      WordLengthIsMaximalRun(s[1..]);
      forall i | 0 < i < WordLength(s) ensures !IsSpace(s[i]) {
        assert s[i] == s[1..][i - 1];
      }
    }
  }

  /** `s.split()`: the maximal runs of non-space characters. */
  function Words(s: string): (ws: seq<string>)
    ensures forall k :: 0 <= k < |ws| ==> ws[k] != []
    decreases |s|
  {
    if s == [] then []
    else if IsSpace(s[0]) then Words(s[1..])
    else
      var k := WordLength(s);
      [s[..k]] + Words(s[k..])
  }

  /** No word holds a space character. */
  lemma {:induction false} WordsHaveNoSpaces(s: string)
    ensures forall k, i :: 0 <= k < |Words(s)| && 0 <= i < |Words(s)[k]| ==> !IsSpace(Words(s)[k][i])
    decreases |s|
  {
    if s != [] {
      if IsSpace(s[0]) {
        WordsHaveNoSpaces(s[1..]);
      } else {
        var n := WordLength(s);
        WordLengthIsMaximalRun(s);
        WordsHaveNoSpaces(s[n..]);
        assert Words(s) == [s[..n]] + Words(s[n..]);
      }
    }
  }

  /** The start of a mail's text as found by the envelope, code and
      Delivery-date patterns; the patterns themselves are not modelled. */
  datatype Extraction = NoMatch | Match(body: string, code: string, sentAt: int)

  datatype FetchReply = FetchFailed | Fetched(extraction: Extraction)

  /** One run of `dosync2`: the search reply (None when the search raised a
      connection error), the fetch reply, and the clock reading. */
  datatype SyncAttempt = SyncAttempt(search: Option<string>, fetch: FetchReply, now: int)

  datatype SyncOutcome =
    | NoMail                      // empty search result
    | NoCodes                     // the mail did not match the patterns
    | Stale                       // the code was already CODE_DURATION old
    | Pushed(note: Note, attempt: nat)
    | ConnectionError             // the search raised; the caller reconnects
    | EmptyIdList                 // a non-empty reply with no ids: dat[-1] raises IndexError
    | OutOfAttempts               // the fetch kept failing past the supplied replies

  /** The newest id in the last SEARCH_WINDOW ids of a search reply. */
  function NewestId(reply: string): (r: Option<string>)
    ensures r.Some? <==> Words(reply) != []
  {
    PyIndex(LastN(Words(reply), SEARCH_WINDOW), -1)
  }

  /** The window changes nothing about which id is fetched: the newest one. */
  lemma NewestIdIsLastSearchResult(reply: string)
    ensures var ws := Words(reply);
      NewestId(reply) == (if ws == [] then None else Some(ws[|ws| - 1]))
  {
  }

  /** What one attempt of `dosync2` does: retry after a failed fetch, or
      finish with an outcome. */
  datatype SyncStep = RetryFetch | Finished(outcome: SyncOutcome)

  /** One attempt of `dosync2`, numbered `index`: the search, the newest id
      of its reply, the fetch and the parse of the mail. */
  function AttemptStep(a: SyncAttempt, index: nat): (r: SyncStep)
    ensures r.RetryFetch? <==>
      a.search.Some? && |a.search.value| > 0 && NewestId(a.search.value).Some? && a.fetch.FetchFailed?
    ensures r.Finished? && r.outcome.Pushed? ==> r.outcome.attempt == index
    ensures a.search.Some? && |a.search.value| > 0 && NewestId(a.search.value).None? ==>
      r == Finished(EmptyIdList)
    ensures (a.search.Some? && |a.search.value| > 0 && NewestId(a.search.value).Some? &&
             a.fetch == Fetched(NoMatch)) ==>
        r == Finished(NoCodes)
    ensures (a.search.Some? && |a.search.value| > 0 && NewestId(a.search.value).Some? &&
             a.fetch.Fetched? && a.fetch.extraction.Match?) ==>
        var m := a.fetch.extraction;
        r == if a.now - m.sentAt < CODE_DURATION_SECONDS
          then Finished(Pushed(Note(NewestId(a.search.value).value, m.sentAt, m.code, m.body,
            AgeColor(a.now - m.sentAt)), index))
          else Finished(Stale)
  {
    match a.search
    case None => Finished(ConnectionError)
    case Some(reply) =>
      if |reply| == 0 then Finished(NoMail)
      else match NewestId(reply)
        case None => Finished(EmptyIdList)
        case Some(mailId) =>
          match a.fetch
          case FetchFailed => RetryFetch
          case Fetched(NoMatch) => Finished(NoCodes)
          case Fetched(Match(body, code, sentAt)) =>
            var age := a.now - sentAt;
            if age < CODE_DURATION_SECONDS then
              Finished(Pushed(Note(mailId, sentAt, code, body, AgeColor(age)), index))
            else Finished(Stale)
  }

  /** `dosync2` as a function of the replies it gets: a failed fetch sleeps
      and starts over with the next attempt. */
  function Sync(attempts: seq<SyncAttempt>, first: nat): (r: SyncOutcome)
    ensures r.Pushed? ==> first <= r.attempt < first + |attempts|
    decreases |attempts|
  {
    if attempts == [] then OutOfAttempts
    else match AttemptStep(attempts[0], first)
      case RetryFetch => Sync(attempts[1..], first + 1)
      case Finished(outcome) => outcome
  }

  /** An empty search reply ends `dosync2` with nothing done; a search that
      raised is a connection error for the caller. */
  lemma SyncEmptySearch(attempts: seq<SyncAttempt>, first: nat)
    requires attempts != []
    ensures attempts[0].search == Some([]) ==> Sync(attempts, first) == NoMail
    ensures attempts[0].search.None? ==> Sync(attempts, first) == ConnectionError
  {
  }

  /** The attempt that pushes is reached after failed fetches only, and
      `dosync2` restarted there gives the same outcome. */
  lemma SyncPushedAt(attempts: seq<SyncAttempt>, first: nat)
    requires Sync(attempts, first).Pushed?
    ensures var i := Sync(attempts, first).attempt - first;
      0 <= i < |attempts| &&
      (forall k :: 0 <= k < i ==> attempts[k].fetch.FetchFailed?) &&
      (forall k :: 0 <= k < i ==> attempts[k].search.Some? && NewestId(attempts[k].search.value).Some?) &&
      !attempts[i].fetch.FetchFailed? &&
      Sync(attempts[i..], first + i) == Sync(attempts, first)
  {
    var r := Sync(attempts, first);
    var i := r.attempt - first;
    SyncPushedIndex(attempts, first);
    SyncFailedBefore(attempts, first);
    assert attempts[i..][0] == attempts[i];
    PushingStep(attempts[i..], first + i);
    assert first + i == r.attempt;
  }

  /** Where the push happens: at an attempt whose fetch did not fail and
      which finishes with that push. */
  lemma {:induction false} SyncPushedIndex(attempts: seq<SyncAttempt>, first: nat)
    requires Sync(attempts, first).Pushed?
    ensures var i := Sync(attempts, first).attempt - first;
      0 <= i < |attempts| && !attempts[i].fetch.FetchFailed? &&
      AttemptStep(attempts[i], Sync(attempts, first).attempt) == Finished(Sync(attempts, first))
    decreases |attempts|, 1
  {
    SyncHead(attempts, first);
    if attempts[0].fetch.FetchFailed? {
      SyncPushedIndexAfterRetry(attempts, first);
    } else {
      PushingStep(attempts, first);
    }
  }

  /** The same, when the first fetch failed: the push is found in the rest. */
  lemma {:induction false} SyncPushedIndexAfterRetry(attempts: seq<SyncAttempt>, first: nat)
    requires attempts != [] && attempts[0].fetch.FetchFailed?
    requires Sync(attempts[1..], first + 1) == Sync(attempts, first) && Sync(attempts, first).Pushed?
    ensures var i := Sync(attempts, first).attempt - first;
      0 < i < |attempts| && !attempts[i].fetch.FetchFailed? &&
      AttemptStep(attempts[i], Sync(attempts, first).attempt) == Finished(Sync(attempts, first))
    decreases |attempts|, 0
  {
    var r := Sync(attempts, first);
    var tail := attempts[1..];
    SyncPushedIndex(tail, first + 1);
    var i := r.attempt - first;
    assert tail[i - 1] == attempts[i];
  }

  /** Every attempt before the pushing one searched, found an id and failed
      to fetch. */
  lemma {:induction false} SyncFailedBefore(attempts: seq<SyncAttempt>, first: nat)
    requires Sync(attempts, first).Pushed?
    ensures var i := Sync(attempts, first).attempt - first;
      forall k :: 0 <= k < i && k < |attempts| ==>
        attempts[k].fetch.FetchFailed? && attempts[k].search.Some? && NewestId(attempts[k].search.value).Some?
    decreases |attempts|
  {
    SyncHead(attempts, first);
    if attempts[0].fetch.FetchFailed? {
      var i := Sync(attempts, first).attempt - first;
      var tail := attempts[1..];
      SyncFailedBefore(tail, first + 1);
      forall k | 0 <= k < i && k < |attempts|
        ensures attempts[k].fetch.FetchFailed? && attempts[k].search.Some? && NewestId(attempts[k].search.value).Some?
      {
        if k > 0 { assert attempts[k] == tail[k - 1]; }
      }
    }
  }

  /** The first attempt of a pushing sync: either its fetch failed after a
      search that found an id and the rest of the run pushes, or it is the
      pushing attempt. */
  lemma SyncHead(attempts: seq<SyncAttempt>, first: nat)
    requires Sync(attempts, first).Pushed?
    ensures attempts != [] && attempts[0].search.Some? && NewestId(attempts[0].search.value).Some?
    ensures attempts[0].fetch.FetchFailed? ==> Sync(attempts[1..], first + 1) == Sync(attempts, first)
    ensures !attempts[0].fetch.FetchFailed? ==> Sync(attempts, first).attempt == first
  {
  }

  /** A first attempt whose fetch did not fail is the one that finishes a
      pushing sync. */
  lemma PushingStep(attempts: seq<SyncAttempt>, first: nat)
    requires attempts != [] && !attempts[0].fetch.FetchFailed?
    ensures AttemptStep(attempts[0], first) == Finished(Sync(attempts, first))
  {
  }

  /** A push made by attempt `a`: the note carries the newest search id of
      `a` and the mail's send time, code and body, is not yet expired at
      `a`'s clock reading and has its age's colour. */
  predicate PushedFrom(r: SyncOutcome, a: SyncAttempt) {
    r.Pushed? &&
    a.search.Some? && NewestId(a.search.value) == Some(r.note.id) &&
    a.fetch.Fetched? && a.fetch.extraction.Match? && r.note.time == a.fetch.extraction.sentAt &&
    r.note.code == a.fetch.extraction.code && r.note.body == a.fetch.extraction.body &&
    !Expired(r.note, a.now) && r.note.color == AgeColor(a.now - r.note.time)
  }

  /** An attempt that finishes with a push is where the note comes from. */
  lemma PushingAttempt(a: SyncAttempt, index: nat, r: SyncOutcome)
    requires AttemptStep(a, index) == Finished(r) && r.Pushed?
    ensures PushedFrom(r, a)
  {
  }

  /** An attempt whose fetch succeeds and pushes: the push is that
      attempt's. */
  lemma SyncPushesFromFirst(attempts: seq<SyncAttempt>, first: nat)
    requires attempts != [] && !attempts[0].fetch.FetchFailed?
    requires Sync(attempts, first).Pushed?
    ensures Sync(attempts, first).attempt == first && PushedFrom(Sync(attempts, first), attempts[0])
  {
    PushingAttempt(attempts[0], first, Sync(attempts, first));
  }

  /** What gets pushed: the newest search id of the attempt whose fetch
      succeeded, every earlier fetch having failed, with a code not yet
      CODE_DURATION old, coloured by the aging thresholds. */
  lemma SyncPushesFreshNewest(attempts: seq<SyncAttempt>, first: nat)
    requires Sync(attempts, first).Pushed?
    ensures var r := Sync(attempts, first);
      PushedFrom(r, attempts[r.attempt - first]) &&
      forall k :: 0 <= k < r.attempt - first ==> attempts[k].fetch.FetchFailed?
  {
    var r := Sync(attempts, first);
    var i := r.attempt - first;
    SyncPushedIndex(attempts, first);
    SyncFailedBefore(attempts, first);
    PushingAttempt(attempts[i], r.attempt, r);
  }

  /** An attempt that searches, finds an id and fetches a mail whose code is
      not yet CODE_DURATION old. */
  predicate FreshMatch(a: SyncAttempt) {
    a.search.Some? && |a.search.value| > 0 && NewestId(a.search.value).Some? &&
    a.fetch.Fetched? && a.fetch.extraction.Match? &&
    a.now - a.fetch.extraction.sentAt < CODE_DURATION_SECONDS
  }

  /** An attempt that searches, finds an id and fails to fetch. */
  predicate FailedFetch(a: SyncAttempt) {
    a.search.Some? && |a.search.value| > 0 && NewestId(a.search.value).Some? && a.fetch.FetchFailed?
  }

  /** The pushing direction: after `i` failed fetches, an attempt that fetches
      a fresh match pushes that mail's note, numbered `first + i`. */
  lemma {:induction false} SyncPushesFreshMatch(attempts: seq<SyncAttempt>, first: nat, i: nat)
    requires i < |attempts| && FreshMatch(attempts[i])
    requires forall k :: 0 <= k < i ==> FailedFetch(attempts[k])
    ensures var a := attempts[i];
      var m := a.fetch.extraction;
      Sync(attempts, first) ==
        Pushed(Note(NewestId(a.search.value).value, m.sentAt, m.code, m.body, AgeColor(a.now - m.sentAt)), first + i)
    decreases i
  {
    if i > 0 {
      var tail := attempts[1..];
      assert FailedFetch(attempts[0]);
      forall k | 0 <= k < i - 1
        ensures FailedFetch(tail[k])
      {
        assert tail[k] == attempts[k + 1];
      }
      assert tail[i - 1] == attempts[i];
      SyncPushesFreshMatch(tail, first + 1, i - 1);
    }
  }

  /** The case the freshness gate exists for: a first attempt that fetches a
      fresh match pushes, as attempt `first`. */
  lemma SyncPushesFreshFirst(attempts: seq<SyncAttempt>, first: nat)
    requires attempts != [] && FreshMatch(attempts[0])
    ensures Sync(attempts, first).Pushed? && Sync(attempts, first).attempt == first
    ensures PushedFrom(Sync(attempts, first), attempts[0])
  {
    SyncPushesFreshMatch(attempts, first, 0);
    PushingAttempt(attempts[0], first, Sync(attempts, first));
  }

  /** The other finishing outcomes of an attempt that found an id: a
      stale code gives Stale and a mail that did not match gives NoCodes. */
  lemma SyncStaleOrNoCodes(attempts: seq<SyncAttempt>, first: nat)
    requires attempts != [] && attempts[0].search.Some? && |attempts[0].search.value| > 0
    requires NewestId(attempts[0].search.value).Some?
    ensures attempts[0].fetch == Fetched(NoMatch) ==> Sync(attempts, first) == NoCodes
    ensures (attempts[0].fetch.Fetched? && attempts[0].fetch.extraction.Match? &&
             attempts[0].now - attempts[0].fetch.extraction.sentAt >= CODE_DURATION_SECONDS) ==>
        Sync(attempts, first) == Stale
  {
  }

  /** A freshly pushed note is left untouched by an aging pass at the same
      instant: the initial colour uses the aging thresholds. */
  lemma PushedNoteSurvivesAging(attempts: seq<SyncAttempt>, first: nat)
    requires Sync(attempts, first).Pushed?
    ensures var r := Sync(attempts, first);
      Aged([r.note], attempts[r.attempt - first].now) == [r.note]
  {
    var r := Sync(attempts, first);
    var i := r.attempt - first;
    SyncPushedIndex(attempts, first);
    PushingAttempt(attempts[i], r.attempt, r);
    FreshNoteSurvivesAging(r.note, attempts[i].now);
  }

  /** A note that is not expired and already has its age's colour is left
      as it is by the aging pass. */
  lemma FreshNoteSurvivesAging(note: Note, now: int)
    requires !Expired(note, now) && note.color == AgeColor(now - note.time)
    ensures Aged([note], now) == [note]
  {
    assert [note][1..] == [];
  }

  /** `Idler.dosync2` on the shared stack. */
  method Dosync2(s: FixedStack, attempts: seq<SyncAttempt>, first: nat) returns (r: SyncOutcome)
    modifies s
    ensures r == Sync(attempts, first)
    ensures s.stack == if r.Pushed? then StackPushed(old(s.stack), r.note) else old(s.stack)
    ensures old(s.Valid()) ==> s.Valid()
    decreases |attempts|
  {
    if attempts == [] {
      return OutOfAttempts;
    }
    var a := attempts[0];
    if a.search.None? {
      return ConnectionError;
    }
    var reply := a.search.value;
    if |reply| > 0 {
      var dat := LastN(Words(reply), SEARCH_WINDOW);
      if dat == [] {
        return EmptyIdList;
      }
      var mailId := dat[|dat| - 1];
      if a.fetch.FetchFailed? {
        r := Dosync2(s, attempts[1..], first + 1);
        return;
      }
      match a.fetch.extraction {
        case NoMatch =>
          return NoCodes;
        case Match(body, code, sentAt) =>
          var age := a.now - sentAt;
          if age < CODE_DURATION_SECONDS {
            var note := Note(mailId, sentAt, code, body, AgeColor(age));
            s.Push(note);
            return Pushed(note, first);
          }
          return Stale;
      }
    }
    return NoMail;
  }

  // ---- connect_imap ----

  datatype AttemptReply = LoggedIn | Failed(error: string)
  datatype ConnectStep = Attempt(number: nat) | Sleep(seconds: nat)
  datatype ConnectResult = Connected(attempt: nat) | Raised(error: string)

  /** The steps of n attempts with the fixed delay between consecutive ones. */
  function ConnectTrace(n: nat): (t: seq<ConnectStep>)
    ensures n > 0 ==> |t| == 2 * n - 1
    ensures n == 0 ==> t == []
  {
    if n == 0 then []
    else if n == 1 then [Attempt(0)]
    else ConnectTrace(n - 1) + [Sleep(RETRY_DELAY_SECONDS), Attempt(n - 1)]
  }

  /** Attempt i sits at position 2i with a sleep after it, except the last. */
  lemma {:induction false} ConnectTraceShape(n: nat)
    ensures forall k :: 0 <= k < |ConnectTrace(n)| ==>
      ConnectTrace(n)[k] == if k % 2 == 0 then Attempt(k / 2) else Sleep(RETRY_DELAY_SECONDS)
  {
    if n > 1 {
      ConnectTraceShape(n - 1);
    }
  }

  function SleptSeconds(t: seq<ConnectStep>): nat {
    if t == [] then 0
    else (if t[0].Sleep? then t[0].seconds else 0) + SleptSeconds(t[1..])
  }

  function AttemptCount(t: seq<ConnectStep>): nat {
    if t == [] then 0
    else (if t[0].Attempt? then 1 else 0) + AttemptCount(t[1..])
  }

  lemma SleptSecondsAppend(a: seq<ConnectStep>, b: seq<ConnectStep>)
    ensures SleptSeconds(a + b) == SleptSeconds(a) + SleptSeconds(b)
    ensures AttemptCount(a + b) == AttemptCount(a) + AttemptCount(b)
  {
    if a != [] {
      assert (a + b)[1..] == a[1..] + b;
      SleptSecondsAppend(a[1..], b);
    } else {
      assert a + b == b;
    }
  }

  /** n attempts sleep n - 1 times: the delay only falls between attempts. */
  lemma {:induction false} ConnectTraceCounts(n: nat)
    requires n > 0
    ensures AttemptCount(ConnectTrace(n)) == n
    ensures SleptSeconds(ConnectTrace(n)) == (n - 1) * RETRY_DELAY_SECONDS
    ensures ConnectTrace(n)[|ConnectTrace(n)| - 1] == Attempt(n - 1)
  {
    if n > 1 {
      ConnectTraceCounts(n - 1);
      var tail := [Sleep(RETRY_DELAY_SECONDS), Attempt(n - 1)];
      SleptSecondsAppend(ConnectTrace(n - 1), tail);
      assert tail[1..] == [Attempt(n - 1)] && tail[1..][1..] == [];
      assert SleptSeconds(tail[1..][1..]) == 0 && AttemptCount(tail[1..][1..]) == 0;
      assert SleptSeconds(tail[1..]) == 0 && AttemptCount(tail[1..]) == 1;
      assert SleptSeconds(tail) == RETRY_DELAY_SECONDS && AttemptCount(tail) == 1;
    }
  }

  /** `connect_imap`, with the outcome of each attempt supplied by `reply`.
      It stops at the first success; after MAX_RETRIES failures it re-raises
      the last error. */
  method ConnectImap(reply: nat -> AttemptReply) returns (r: ConnectResult, steps: seq<ConnectStep>)
    ensures r.Connected? ==> (r.attempt < MAX_RETRIES && reply(r.attempt).LoggedIn? &&
      (forall k :: 0 <= k < r.attempt ==> reply(k).Failed?) && steps == ConnectTrace(r.attempt + 1))
    ensures r.Raised? ==> ((forall k :: 0 <= k < MAX_RETRIES ==> reply(k).Failed?) &&
      r.error == reply(MAX_RETRIES - 1).error && steps == ConnectTrace(MAX_RETRIES))
  {
    var attempt := 0;
    steps := [];
    while true
      invariant 0 <= attempt < MAX_RETRIES
      invariant forall k :: 0 <= k < attempt ==> reply(k).Failed?
      invariant steps == if attempt == 0 then [] else ConnectTrace(attempt) + [Sleep(RETRY_DELAY_SECONDS)]
      decreases MAX_RETRIES - attempt
    {
      steps := steps + [Attempt(attempt)];
      match reply(attempt) {
        case LoggedIn =>
          return Connected(attempt), steps;
        case Failed(e) =>
          if attempt < MAX_RETRIES - 1 {
            steps := steps + [Sleep(RETRY_DELAY_SECONDS)];
          } else {
            return Raised(e), steps;
          }
      }
      attempt := attempt + 1;
    }
  }

  /** However the attempts go, at most MAX_RETRIES are made and at most
      (MAX_RETRIES - 1) * RETRY_DELAY_SECONDS are spent sleeping. */
  lemma ConnectBudget(n: nat)
    requires 0 < n <= MAX_RETRIES
    ensures AttemptCount(ConnectTrace(n)) <= MAX_RETRIES
    ensures SleptSeconds(ConnectTrace(n)) <= (MAX_RETRIES - 1) * RETRY_DELAY_SECONDS
  {
    ConnectTraceCounts(n);
  }

  // ---- dosync_wrapper ----

  datatype WrapperOutcome =
    | Synced(sync: SyncOutcome)
    | Resynced(connected: nat, retry: SyncOutcome)
    | ReconnectFailed(error: string)

  /** `dosync_wrapper`: a connection error from dosync2 triggers
      connect_imap and one more dosync2 whose errors are only logged. */
  method DosyncWrapper(s: FixedStack, attempts: seq<SyncAttempt>, reply: nat -> AttemptReply,
                       retry: seq<SyncAttempt>) returns (w: WrapperOutcome)
    modifies s
    ensures w.Synced? ==> w.sync == Sync(attempts, 0) && w.sync != ConnectionError
    ensures !w.Synced? ==> Sync(attempts, 0) == ConnectionError
    ensures w.Resynced? ==> w.retry == Sync(retry, 0)
    ensures w.Resynced? ==>
      w.connected < MAX_RETRIES && reply(w.connected).LoggedIn? &&
      forall k :: 0 <= k < w.connected ==> reply(k).Failed?
    ensures w.ReconnectFailed? ==>
      (forall k :: 0 <= k < MAX_RETRIES ==> reply(k).Failed?) &&
      w.error == reply(MAX_RETRIES - 1).error
    ensures s.stack == match w
      case Synced(Pushed(n, _)) => StackPushed(old(s.stack), n)
      case Resynced(_, Pushed(n, _)) => StackPushed(old(s.stack), n)
      case _ => old(s.stack)
    ensures old(s.Valid()) ==> s.Valid()
  {
    var r := Dosync2(s, attempts, 0);
    if r != ConnectionError {
      return Synced(r);
    }
    var c, _ := ConnectImap(reply);
    match c {
      case Raised(e) =>
        return ReconnectFailed(e);
      case Connected(k) =>
        var r2 := Dosync2(s, retry, 0);
        return Resynced(k, r2);
    }
  }

  // ---- The idle loop ----

  /** What resolves one `event.wait()`: the IDLE callback (a server push or
      the IDLE timeout), `stop()`, or the callback followed by `stop()`. */
  datatype WaitOutcome = ServerWake | StopRequested | ServerWakeThenStop

  /** One pass of the loop as its surroundings drive it: how the wait ended,
      whether the event was set again after `event.clear()` but before the
      next top check, and the clock reading of the aging pass. In the loop as
      written that late set ends the loop whoever makes it: `stop()`, or a
      late IDLE callback, which sets the event when it finds it clear. The
      corrected loop reads it as a late `stop()`. */
  datatype Wake = Wake(during: WaitOutcome, stopAfterClear: bool, now: int)

  datatype IdleStep = SyncPass | AgingPass(now: int)

  datatype IdleRun = IdleRun(returned: bool, steps: seq<IdleStep>)

  /** The passes after one wake of the loop as written: a sync when the
      callback set needsync (it does not once stop() has set the event),
      then the aging pass. */
  function WakeSteps(w: Wake): (r: seq<IdleStep>)
    ensures 1 <= |r| <= 2 && r[|r| - 1] == AgingPass(w.now)
    ensures SyncPass in r <==> w.during != StopRequested
  {
    (if w.during != StopRequested then [SyncPass] else []) + [AgingPass(w.now)]
  }

  /** The loop of `Idler.idle` as written, from the top check with the
      event flag `event`, over the wakes supplied. */
  function IdleLoopAsWritten(event: bool, wakes: seq<Wake>): (r: IdleRun)
    ensures event ==> r == IdleRun(true, [])
    ensures |r.steps| <= 2 * |wakes|
    decreases |wakes|
  {
    if event then IdleRun(true, [])
    else if wakes == [] then IdleRun(false, [])
    else
      var rest := IdleLoopAsWritten(wakes[0].stopAfterClear, wakes[1..]);
      IdleRun(rest.returned, WakeSteps(wakes[0]) + rest.steps)
  }

  /** One iteration of the loop as written, at position i of the wakes. */
  /** Steps already run, then the ones of this wake, then the rest. */
  lemma StepsAppend(done: seq<IdleStep>, ran: seq<IdleStep>, rest: seq<IdleStep>)
    ensures done + (ran + rest) == (done + ran) + rest
  {
  }

  lemma IdleAsWrittenAt(wakes: seq<Wake>, i: nat)
    requires i < |wakes|
    ensures var rest := IdleLoopAsWritten(wakes[i].stopAfterClear, wakes[i + 1..]);
      IdleLoopAsWritten(false, wakes[i..]) == IdleRun(rest.returned, WakeSteps(wakes[i]) + rest.steps)
  {
    assert wakes[i..][0] == wakes[i] && wakes[i..][1..] == wakes[i + 1..];
  }

  /** As written, the loop only returns for a stop that lands between
      `event.clear()` and the next top check; a stop during the wait is
      cleared with the wake-up flag. */
  lemma {:induction false} IdleAsWrittenReturns(event: bool, wakes: seq<Wake>)
    ensures IdleLoopAsWritten(event, wakes).returned <==>
      event || exists k :: 0 <= k < |wakes| && wakes[k].stopAfterClear
    decreases |wakes|
  {
    if !event && wakes != [] {
      IdleAsWrittenReturns(wakes[0].stopAfterClear, wakes[1..]);
      if exists k :: 0 <= k < |wakes[1..]| && wakes[1..][k].stopAfterClear {
        var k :| 0 <= k < |wakes[1..]| && wakes[1..][k].stopAfterClear;
        assert wakes[k + 1].stopAfterClear;
      }
      if exists k :: 0 <= k < |wakes| && wakes[k].stopAfterClear {
        var k :| 0 <= k < |wakes| && wakes[k].stopAfterClear;
        if k > 0 { assert wakes[1..][k - 1].stopAfterClear; }
      }
    }
  }

  function AgingPasses(steps: seq<IdleStep>): nat {
    if steps == [] then 0 else (if steps[0].AgingPass? then 1 else 0) + AgingPasses(steps[1..])
  }

  function SyncPasses(steps: seq<IdleStep>): nat {
    if steps == [] then 0 else (if steps[0].SyncPass? then 1 else 0) + SyncPasses(steps[1..])
  }

  /** Wakes resolved by the IDLE callback, which is what sets needsync. */
  function CallbackWakes(wakes: seq<Wake>): nat {
    if wakes == [] then 0 else (if wakes[0].during != StopRequested then 1 else 0) + CallbackWakes(wakes[1..])
  }

  lemma PassesAppend(a: seq<IdleStep>, b: seq<IdleStep>)
    ensures AgingPasses(a + b) == AgingPasses(a) + AgingPasses(b)
    ensures SyncPasses(a + b) == SyncPasses(a) + SyncPasses(b)
  {
    if a != [] {
      assert (a + b)[1..] == a[1..] + b;
      PassesAppend(a[1..], b);
    } else {
      assert a + b == b;
    }
  }

  /** Until a stop is seen, every wake is followed by one aging pass, and by
      a sync exactly when the callback set needsync. */
  lemma {:induction false} IdleAsWrittenAgesEveryWake(wakes: seq<Wake>)
    requires forall k :: 0 <= k < |wakes| ==> !wakes[k].stopAfterClear
    ensures var run := IdleLoopAsWritten(false, wakes);
      !run.returned && AgingPasses(run.steps) == |wakes| && SyncPasses(run.steps) == CallbackWakes(wakes)
    decreases |wakes|
  {
    if wakes != [] {
      var w := wakes[0];
      assert !w.stopAfterClear;
      assert forall k :: 0 <= k < |wakes[1..]| ==> wakes[1..][k] == wakes[k + 1];
      IdleAsWrittenAgesEveryWake(wakes[1..]);
      var here := WakeSteps(w);
      var rest := IdleLoopAsWritten(false, wakes[1..]);
      PassesAppend(here, rest.steps);
      if w.during != StopRequested {
        assert here == [SyncPass, AgingPass(w.now)];
        assert here[1..] == [AgingPass(w.now)] && here[1..][1..] == [];
      } else {
        assert here == [AgingPass(w.now)] && here[1..] == [];
      }
    }
  }

  /** `stop()` while the watcher waits: the loop keeps going and syncs again
      on the next server wake. */
  lemma StopDuringWaitIsLost()
    ensures IdleLoopAsWritten(false, [Wake(StopRequested, false, 0), Wake(ServerWake, false, 1)]) ==
      IdleRun(false, [AgingPass(0), SyncPass, AgingPass(1)])
  {
    var ws := [Wake(StopRequested, false, 0), Wake(ServerWake, false, 1)];
    assert ws[1..] == [Wake(ServerWake, false, 1)];
    assert ws[1..][1..] == [];
  }

  /** The loop with the stop request kept apart from the wake-up flag: it
      exits at the first wait resolution (or top check) that sees a stop. */
  function IdleLoop(stop: bool, wakes: seq<Wake>): (r: IdleRun)
    ensures stop ==> r == IdleRun(true, [])
    ensures |r.steps| <= 2 * |wakes|
    decreases |wakes|
  {
    if stop then IdleRun(true, [])
    else if wakes == [] then IdleRun(false, [])
    else
      var w := wakes[0];
      if w.during != ServerWake then IdleRun(true, [])
      else
        var rest := IdleLoop(w.stopAfterClear, wakes[1..]);
        IdleRun(rest.returned, [SyncPass, AgingPass(w.now)] + rest.steps)
  }

  predicate StopsIn(w: Wake) {
    w.during != ServerWake || w.stopAfterClear
  }

  lemma IdleLoopAt(wakes: seq<Wake>, i: nat)
    requires i < |wakes|
    ensures wakes[i].during != ServerWake ==> IdleLoop(false, wakes[i..]) == IdleRun(true, [])
    ensures var rest := IdleLoop(wakes[i].stopAfterClear, wakes[i + 1..]);
      wakes[i].during == ServerWake ==>
        IdleLoop(false, wakes[i..]) == IdleRun(rest.returned, [SyncPass, AgingPass(wakes[i].now)] + rest.steps)
  {
    assert wakes[i..][0] == wakes[i] && wakes[i..][1..] == wakes[i + 1..];
  }

  /** With the stop kept apart, the loop returns exactly when some stop is
      requested, and it runs one sync and one aging pass per wake before it. */
  lemma {:induction false} IdleLoopReturns(stop: bool, wakes: seq<Wake>)
    ensures IdleLoop(stop, wakes).returned <==> stop || exists k :: 0 <= k < |wakes| && StopsIn(wakes[k])
    ensures |IdleLoop(stop, wakes).steps| <= 2 * |wakes|
    ensures forall k :: 0 <= k < |IdleLoop(stop, wakes).steps| ==>
      IdleLoop(stop, wakes).steps[k] == if k % 2 == 0 then SyncPass else AgingPass(wakes[k / 2].now)
    decreases |wakes|
  {
    if !stop && wakes != [] && wakes[0].during == ServerWake {
      var w := wakes[0];
      IdleLoopReturns(w.stopAfterClear, wakes[1..]);
      if exists k :: 0 <= k < |wakes[1..]| && StopsIn(wakes[1..][k]) {
        var k :| 0 <= k < |wakes[1..]| && StopsIn(wakes[1..][k]);
        assert StopsIn(wakes[k + 1]);
      }
      if exists k :: 0 <= k < |wakes| && StopsIn(wakes[k]) {
        var k :| 0 <= k < |wakes| && StopsIn(wakes[k]);
        if k > 0 { assert StopsIn(wakes[1..][k - 1]); }
      }
      var rest := IdleLoop(w.stopAfterClear, wakes[1..]);
      var all := [SyncPass, AgingPass(w.now)] + rest.steps;
      forall k | 0 <= k < |all| ensures all[k] == if k % 2 == 0 then SyncPass else AgingPass(wakes[k / 2].now) {
        if k >= 2 {
          assert all[k] == rest.steps[k - 2];
          assert (k - 2) / 2 == k / 2 - 1 && (k - 2) % 2 == k % 2;
          assert wakes[1..][(k - 2) / 2] == wakes[k / 2];
        }
      }
    }
  }

  /** The same schedule, with the stop kept apart: the loop exits at once. */
  lemma StopDuringWaitEndsLoop()
    ensures IdleLoop(false, [Wake(StopRequested, false, 0), Wake(ServerWake, false, 1)]) == IdleRun(true, [])
  {
  }

  /** `Idler`: the stop/wake event, the needsync flag set by the IDLE callback. */
  class Idler {
    var event: bool
    var needsync: bool
    /** The stop request kept apart from the wake-up flag; only the
        corrected loop reads it. */
    var stopping: bool

    constructor ()
      ensures !event && !needsync && !stopping
    {
      event, needsync, stopping := false, false, false;
    }

    /** `stop()`: sets the event (and, for the corrected loop, the stop request). */
    method Stop()
      modifies this
      ensures event && stopping && needsync == old(needsync)
    {
      event, stopping := true, true;
    }

    /** The corrected loop: `event.clear()` only clears the wake-up, and a
        stop seen when the wait ends returns at once. */
    method Idle(wakes: seq<Wake>) returns (run: IdleRun)
      modifies this
      ensures run == IdleLoop(old(stopping), wakes)
    {
      ghost var target := IdleLoop(stopping, wakes);
      var steps: seq<IdleStep> := [];
      var i := 0;
      while true
        invariant 0 <= i <= |wakes|
        invariant target.returned == IdleLoop(stopping, wakes[i..]).returned
        invariant target.steps == steps + IdleLoop(stopping, wakes[i..]).steps
        decreases |wakes| - i
      {
        if stopping {
          return IdleRun(true, steps);
        }
        if i == |wakes| {
          return IdleRun(false, steps);
        }
        var w := wakes[i];
        IdleLoopAt(wakes, i);
        var ran := WakeCorrected(w);
        if stopping {
          return IdleRun(true, steps);
        }
        ghost var rest := IdleLoop(w.stopAfterClear, wakes[i + 1..]);
        StepsAppend(steps, ran, rest.steps);
        steps := steps + ran;
        if w.stopAfterClear {
          event, stopping := true, true;
        }
        i := i + 1;
      }
    }

    /** One iteration of the corrected loop up to its check after the
        clear: the wait ends with the event set, stop() also records the
        request in `stopping`, and the event is cleared; when no stop came
        during the wait a sync and the aging pass follow. */
    method WakeCorrected(w: Wake) returns (ran: seq<IdleStep>)
      modifies this
      ensures stopping <==> old(stopping) || w.during != ServerWake
      ensures !stopping ==> ran == [SyncPass, AgingPass(w.now)]
      ensures !event
    {
      needsync := false;
      match w.during {
        case ServerWake =>
          needsync, event := true, true;
        case StopRequested =>
          event, stopping := true, true;
        case ServerWakeThenStop =>
          needsync, event := true, true;
          event, stopping := true, true;
      }
      event := false;
      ran := [];
      if !stopping {
        ran := [SyncPass, AgingPass(w.now)];
      }
    }

    /** One iteration below the top check, as written: the wait ends with
        the event set, the callback sets needsync unless stop() set the
        event first, the event is cleared, and a sync (when needed) and the
        aging pass follow; a stop after the clear leaves the event set. */
    method WakeAsWritten(w: Wake) returns (ran: seq<IdleStep>)
      modifies this
      ensures ran == WakeSteps(w)
      ensures event == w.stopAfterClear
    {
      needsync := false;
      needsync, event := w.during != StopRequested, true;
      event := false;
      ran := [];
      if needsync {
        ran := ran + [SyncPass];
      }
      ran := ran + [AgingPass(w.now)];
      if w.stopAfterClear {
        event := true;
      }
    }

    /** The loop of `idle` after its initial sync, as written. */
    method IdleAsWritten(wakes: seq<Wake>) returns (run: IdleRun)
      modifies this
      ensures run == IdleLoopAsWritten(old(event), wakes)
    {
      ghost var target := IdleLoopAsWritten(event, wakes);
      var steps: seq<IdleStep> := [];
      var i := 0;
      while true
        invariant 0 <= i <= |wakes|
        invariant target.returned == IdleLoopAsWritten(event, wakes[i..]).returned
        invariant target.steps == steps + IdleLoopAsWritten(event, wakes[i..]).steps
        decreases |wakes| - i
      {
        if event {
          return IdleRun(true, steps);
        }
        if i == |wakes| {
          return IdleRun(false, steps);
        }
        var w := wakes[i];
        IdleAsWrittenAt(wakes, i);
        ghost var rest := IdleLoopAsWritten(w.stopAfterClear, wakes[i + 1..]);
        var ran := WakeAsWritten(w);
        StepsAppend(steps, ran, rest.steps);
        steps := steps + ran;
        i := i + 1;
      }
    }
  }
}
