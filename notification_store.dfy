/** The notification entity of the Gmail path, the factory that builds one
    from a Gmail message, and the bounded, deduplicating queue that holds them.
    Times are whole seconds since the epoch. */
module NotificationStore {
  import opened PyLists
  import opened PyText

  datatype Color = Green | Yellow | Red

  /** The `Notification` dataclass; every field the dataclass lets be None is
      an Option here. */
  datatype Notification = Notification(
    time: Option<int>,
    code: Option<int>,
    id: Option<string>,
    body: Option<string>,
    color: Color,
    expiresAt: Option<int>)

  datatype Header = Header(name: string, value: string)

  /** The parts of a Gmail API message the core reads: `payload.headers`
      (an absent list is empty), `snippet` (may be absent) and `labelIds`. */
  datatype GmailMessage = GmailMessage(headers: seq<Header>, snippet: Option<string>, labelIds: seq<string>)

  /** What `from_gmail` takes from its surroundings: the clock reading used
      when the Date header is missing or unreadable, the library date parser
      (`parsedate_to_datetime`, None when it raises) and Python's `hash` of a
      string. */
  datatype Environment = Environment(now: int, parseDate: string -> Option<int>, hashOf: string -> int)

  // ---- Header lookup ----

  /** `next((h["value"] for h in headers if h["name"] == name), None)`. */
  function FirstHeader(headers: seq<Header>, name: string): (r: Option<string>)
    ensures r.None? <==> forall i :: 0 <= i < |headers| ==> headers[i].name != name
    ensures r.Some? ==> exists k :: (0 <= k < |headers| && headers[k].name == name &&
      headers[k].value == r.value && forall j :: 0 <= j < k ==> headers[j].name != name)
  {
    if headers == [] then None
    else if headers[0].name == name then Some(headers[0].value)
    else
      var r := FirstHeader(headers[1..], name);
      assert r.Some? ==> exists k :: (0 < k < |headers| && headers[k].name == name &&
        headers[k].value == r.value && forall j :: 0 <= j < k ==> headers[j].name != name) by {
        if r.Some? {
          var k' :| 0 <= k' < |headers| - 1 && headers[1..][k'].name == name &&
            headers[1..][k'].value == r.value && forall j :: 0 <= j < k' ==> headers[1..][j].name != name;
          assert headers[k' + 1].name == name;
          assert forall j :: 0 < j < k' + 1 ==> headers[j].name != name by {
            forall j | 0 < j < k' + 1 ensures headers[j].name != name {
              assert headers[j] == headers[1..][j - 1];
            }
          }
        }
      }
      r
  }

  // ---- The six-digit code: re.search(r"\b\d{6}\b", snippet) ----

  /** Characters `\w` matches (ASCII letters, digits and the underscore). */
  predicate IsWordChar(c: char) {
    IsDigit(c) || ('a' <= c <= 'z') || ('A' <= c <= 'Z') || c == '_'
  }

  /** `\b\d{6}\b` matches at position i of s. */
  predicate CodeAt(s: string, i: int) {
    0 <= i && i + 6 <= |s| && AllDigits(s[i..i + 6]) &&
    (i == 0 || !IsWordChar(s[i - 1])) &&
    (i + 6 == |s| || !IsWordChar(s[i + 6]))
  }

  /** The leftmost position at or after i where the pattern matches. */
  function FindCodeFrom(s: string, i: nat): (r: Option<nat>)
    requires i <= |s|
    ensures r.Some? ==> (i <= r.value && CodeAt(s, r.value) &&
      forall j :: i <= j < r.value ==> !CodeAt(s, j))
    ensures r.None? ==> forall j :: i <= j ==> !CodeAt(s, j)
    decreases |s| - i
  {
    if i + 6 > |s| then None
    else if CodeAt(s, i) then Some(i)
    else FindCodeFrom(s, i + 1)
  }

  /** `int(m.group())` for the first match, or None when there is none
      (the `except ValueError` branch cannot be taken on ASCII digits). */
  function SixDigitCode(snippet: string): (code: Option<int>)
    ensures code.Some? ==> 0 <= code.value < 1000000
  {
    match FindCodeFrom(snippet, 0)
    case None => None
    case Some(k) =>
      DecimalValueBound(snippet[k..k + 6]);
      assert Pow10(6) == 1000000;
      Some(DecimalValue(snippet[k..k + 6]))
  }

  /** The code is the value of the leftmost word-bounded six-digit run, and
      there is none exactly when no position matches. */
  lemma SixDigitCodeIsFirstMatch(snippet: string)
    ensures SixDigitCode(snippet).None? <==> forall j :: !CodeAt(snippet, j)
    ensures SixDigitCode(snippet).Some? ==> exists k ::
      CodeAt(snippet, k) && (forall j :: 0 <= j < k ==> !CodeAt(snippet, j)) &&
      SixDigitCode(snippet).value == DecimalValue(snippet[k..k + 6])
  {
  }

  /** A six-digit run between non-word characters, with no earlier match,
      is the code. */
  lemma {:induction false} BoundedRunIsCode(pre: string, digits: string, post: string)
    requires |digits| == 6 && AllDigits(digits)
    requires pre == [] || !IsWordChar(pre[|pre| - 1])
    requires post == [] || !IsWordChar(post[0])
    requires SixDigitCode(pre).None?
    ensures SixDigitCode(pre + digits + post) == Some(DecimalValue(digits))
  {
    var s := pre + digits + post;
    var n := |pre|;
    assert s[n..n + 6] == digits;
    assert CodeAt(s, n);
    forall j | 0 <= j < n ensures !CodeAt(s, j) {
      if CodeAt(s, j) && j + 6 <= n {
        assert s[j..j + 6] == pre[j..j + 6];
        assert j > 0 ==> s[j - 1] == pre[j - 1];
        assert j + 6 < n ==> s[j + 6] == pre[j + 6];
        assert CodeAt(pre, j);
        assert false;
      }
    }
    assert FindCodeFrom(s, 0) == Some(n);
  }

  /** A run of seven digits, wherever it sits in the text, holds no
      word-bounded six-digit match: neither of its two six-digit windows has
      a word boundary on both sides. */
  lemma SevenDigitsAreNoCode(pre: string, digits: string, post: string)
    requires |digits| == 7 && AllDigits(digits)
    ensures forall j :: |pre| <= j <= |pre| + 1 ==> !CodeAt(pre + digits + post, j)
  {
    var s := pre + digits + post;
    forall j | |pre| <= j <= |pre| + 1 ensures !CodeAt(s, j) {
      if j == |pre| {
        assert s[j + 6] == digits[6];
        assert IsWordChar(digits[6]);
      } else {
        assert s[j - 1] == digits[0];
        assert IsWordChar(digits[0]);
      }
    }
  }

  /** A snippet that is just seven digits has no code. */
  lemma SevenDigitSnippetHasNoCode(digits: string)
    requires |digits| == 7 && AllDigits(digits)
    ensures SixDigitCode(digits).None?
  {
    SevenDigitsAreNoCode([], digits, []);
    assert [] + digits + [] == digits;
    forall j ensures !CodeAt(digits, j) {
    }
  }

  // ---- from_gmail ----

  /** The `Date` header parsed, or the clock reading when it is absent,
      empty or unparsable. */
  function SentTime(msg: GmailMessage, env: Environment): (t: int)
    ensures FirstHeader(msg.headers, "Date").None? ==> t == env.now
    ensures (var d := FirstHeader(msg.headers, "Date");
             d.Some? && d.value != "" && env.parseDate(d.value).Some? ==> t == env.parseDate(d.value).value)
    ensures (var d := FirstHeader(msg.headers, "Date");
             d.Some? && (d.value == "" || env.parseDate(d.value).None?) ==> t == env.now)
  {
    match FirstHeader(msg.headers, "Date")
    case None => env.now
    case Some(d) =>
      if d == "" then env.now
      else match env.parseDate(d)
        case None => env.now
        case Some(t) => t
  }

  /** `f"{time_utc.timestamp()}-{hash(subject)}"`: a whole-second float
      timestamp prints with a trailing ".0". */
  function FallbackId(time: int, subject: string, env: Environment): (id: string)
    ensures id != ""
  {
    IntToString(time) + ".0" + "-" + IntToString(env.hashOf(subject))
  }

  /** The first Subject header, or "(no subject)" when there is none. */
  function Subject(msg: GmailMessage): (subject: string)
    ensures (forall i :: 0 <= i < |msg.headers| ==> msg.headers[i].name != "Subject") ==> subject == "(no subject)"
    ensures FirstHeader(msg.headers, "Subject").Some? ==> subject == FirstHeader(msg.headers, "Subject").value
  {
    match FirstHeader(msg.headers, "Subject")
    case None => "(no subject)"
    case Some(s) => s
  }

  /** `Notification.from_gmail(msg_id, msg, lifetime)`. */
  function FromGmail(msgId: string, msg: GmailMessage, lifetime: int, env: Environment): (n: Notification)
    ensures Truthy(n.id)
    ensures n.time.Some? && n.expiresAt.Some? && n.expiresAt.value - n.time.value == lifetime
    ensures n.time.value == SentTime(msg, env)
    ensures n.id.value == (if msgId != "" then msgId else FallbackId(n.time.value, Subject(msg), env))
    ensures n.body.Some? && (msg.snippet.None? ==> n.body.value == "(no snippet)")
    ensures n.color == Green
  {
    var time := SentTime(msg, env);
    var snippet := match msg.snippet case None => "(no snippet)" case Some(s) => s;
    var id := if msgId != "" then msgId else FallbackId(time, Subject(msg), env);
    Notification(Some(time), SixDigitCode(snippet), Some(id), Some(snippet), Green, Some(time + lifetime))
  }

  /** The code a built notification carries is the first six-digit run of its body. */
  lemma FromGmailCode(msgId: string, msg: GmailMessage, lifetime: int, env: Environment)
    ensures var n := FromGmail(msgId, msg, lifetime, env);
      n.code == SixDigitCode(n.body.value) &&
      (msg.snippet.Some? ==> n.body == msg.snippet)
  {
  }

  // ---- The queue ----

  predicate UniqueIds(q: seq<Notification>) {
    forall i, j :: 0 <= i < j < |q| ==> q[i].id != q[j].id
  }

  predicate ContainsId(q: seq<Notification>, id: Option<string>) {
    exists i :: 0 <= i < |q| && q[i].id == id
  }

  /** The capacity a `max_size` enforces: a non-positive one admits nothing. */
  function Capacity(maxSize: int): nat {
    if maxSize < 0 then 0 else maxSize
  }

  /** What every mutation of a FixedQueue keeps: bounded, ids unique, ids truthy. */
  predicate QueueInvariant(q: seq<Notification>, maxSize: int) {
    |q| <= Capacity(maxSize) && UniqueIds(q) &&
    forall i :: 0 <= i < |q| ==> Truthy(q[i].id)
  }

  datatype PushResult = PushResult(queue: seq<Notification>, raised: bool)

  /** `FixedQueue.push` on a queue value; `raised` is the IndexError of
      `pop(0)` on an empty list, which happens when `max_size <= 0`. */
  function Pushed(q: seq<Notification>, maxSize: int, n: Option<Notification>): PushResult {
    if n.None? || !Truthy(n.value.id) || ContainsId(q, n.value.id) then PushResult(q, false)
    else if |q| >= maxSize then
      if q == [] then PushResult(q, true) else PushResult(q[1..] + [n.value], false)
    else PushResult(q + [n.value], false)
  }

  /** None, a falsy id or an id already queued leave the queue as it was. */
  lemma PushIgnored(q: seq<Notification>, maxSize: int, n: Option<Notification>)
    requires n.None? || !Truthy(n.value.id) || ContainsId(q, n.value.id)
    ensures Pushed(q, maxSize, n) == PushResult(q, false)
  {
  }

  /** A push that is not ignored ends with the new notification, after the
      old contents minus, when full, exactly the element at index 0. */
  lemma PushAppends(q: seq<Notification>, maxSize: int, n: Notification)
    requires QueueInvariant(q, maxSize)
    requires Truthy(n.id) && !ContainsId(q, n.id)
    ensures var r := Pushed(q, maxSize, Some(n));
      (r.raised <==> maxSize <= 0) &&
      (!r.raised ==>
        |r.queue| > 0 && r.queue[|r.queue| - 1] == n &&
        r.queue[..|r.queue| - 1] == (if |q| >= maxSize then q[1..] else q))
  {
    var r := Pushed(q, maxSize, Some(n));
    if !r.raised {
      assert r.queue[..|r.queue| - 1] == (if |q| >= maxSize then q[1..] else q);
    }
  }

  /** Every push keeps the queue invariant. */
  lemma PushKeepsInvariant(q: seq<Notification>, maxSize: int, n: Option<Notification>)
    requires QueueInvariant(q, maxSize)
    ensures QueueInvariant(Pushed(q, maxSize, n).queue, maxSize)
  {
    var r := Pushed(q, maxSize, n);
    if n.Some? && Truthy(n.value.id) && !ContainsId(q, n.value.id) && !r.raised {
      var rest := if |q| >= maxSize then q[1..] else q;
      assert r.queue == rest + [n.value];
      forall i, j | 0 <= i < j < |r.queue| ensures r.queue[i].id != r.queue[j].id {
        if j == |r.queue| - 1 {
          assert r.queue[i] == rest[i];
          assert rest[i] in q;
        } else {
          assert r.queue[i] == rest[i] && r.queue[j] == rest[j];
        }
      }
    }
  }

  /** Pushing a sequence of notifications one after another. */
  function PushAll(q: seq<Notification>, maxSize: int, ns: seq<Option<Notification>>): seq<Notification>
    decreases |ns|
  {
    if ns == [] then q else PushAll(Pushed(q, maxSize, ns[0]).queue, maxSize, ns[1..])
  }

  /** Over any sequence of pushes the queue stays bounded with unique ids. */
  lemma {:induction false} PushAllKeepsInvariant(q: seq<Notification>, maxSize: int, ns: seq<Option<Notification>>)
    requires QueueInvariant(q, maxSize)
    ensures QueueInvariant(PushAll(q, maxSize, ns), maxSize)
    decreases |ns|
  {
    if ns != [] {
      PushKeepsInvariant(q, maxSize, ns[0]);
      PushAllKeepsInvariant(Pushed(q, maxSize, ns[0]).queue, maxSize, ns[1..]);
    }
  }

  /** Five slots, six distinct notifications: the first is evicted and the
      other five remain in insertion order. */
  lemma SixIntoFive(ns: seq<Notification>)
    requires |ns| == 6
    requires forall i :: 0 <= i < 6 ==> Truthy(ns[i].id)
    requires forall i, j :: 0 <= i < j < 6 ==> ns[i].id != ns[j].id
    ensures PushAll([], 5, [Some(ns[0]), Some(ns[1]), Some(ns[2]), Some(ns[3]), Some(ns[4]), Some(ns[5])]) == ns[1..]
  {
    var o := [Some(ns[0]), Some(ns[1]), Some(ns[2]), Some(ns[3]), Some(ns[4]), Some(ns[5])];
    var q1 := Pushed([], 5, o[0]).queue;
    assert q1 == ns[..1];
    var q2 := Pushed(q1, 5, o[1]).queue;
    assert q2 == ns[..2];
    var q3 := Pushed(q2, 5, o[2]).queue;
    assert q3 == ns[..3];
    var q4 := Pushed(q3, 5, o[3]).queue;
    assert q4 == ns[..4];
    var q5 := Pushed(q4, 5, o[4]).queue;
    assert q5 == ns[..5];
    var q6 := Pushed(q5, 5, o[5]).queue;
    assert q6 == ns[1..];
    assert PushAll(q6, 5, o[6..]) == q6;
    assert PushAll([], 5, o) == PushAll(q1, 5, o[1..]);
    assert PushAll(q1, 5, o[1..]) == PushAll(q2, 5, o[2..]);
    assert PushAll(q2, 5, o[2..]) == PushAll(q3, 5, o[3..]);
    assert PushAll(q3, 5, o[3..]) == PushAll(q4, 5, o[4..]);
    assert PushAll(q4, 5, o[4..]) == PushAll(q5, 5, o[5..]);
    assert PushAll(q5, 5, o[5..]) == PushAll(q6, 5, o[6..]);
  }

  datatype PopResult = PopResult(queue: seq<Notification>, returned: Option<Notification>, raised: bool)

  /** `FixedQueue.pop(index)`: None from an empty queue, otherwise Python's
      `list.pop(index)`, which raises IndexError for an index out of range. */
  function PoppedAt(q: seq<Notification>, index: int): (r: PopResult)
    ensures q == [] ==> r == PopResult(q, None, false)
    ensures q != [] && !(-|q| <= index < |q|) ==> r == PopResult(q, None, true)
    ensures q != [] && -|q| <= index < |q| ==>
      var p := PyPosition(|q|, index);
      !r.raised && r.returned == Some(q[p]) && r.queue == q[..p] + q[p + 1..]
  {
    if q == [] then PopResult(q, None, false)
    else match PyIndex(q, index)
      case None => PopResult(q, None, true)
      case Some(n) =>
        var p := PyPosition(|q|, index);
        PopResult(q[..p] + q[p + 1..], Some(n), false)
  }

  /** Popping keeps the invariant, and the popped notification's id is gone. */
  lemma PopKeepsInvariant(q: seq<Notification>, maxSize: int, index: int)
    requires QueueInvariant(q, maxSize)
    ensures var r := PoppedAt(q, index);
      QueueInvariant(r.queue, maxSize) &&
      (r.returned.Some? ==> !ContainsId(r.queue, r.returned.value.id))
  {
    var r := PoppedAt(q, index);
    if r.returned.Some? {
      var p := PyPosition(|q|, index);
      forall i | 0 <= i < |r.queue| ensures r.queue[i].id != q[p].id && Truthy(r.queue[i].id) {
        if i < p { assert r.queue[i] == q[i]; } else { assert r.queue[i] == q[i + 1]; }
      }
      forall i, j | 0 <= i < j < |r.queue| ensures r.queue[i].id != r.queue[j].id {
        var i' := if i < p then i else i + 1;
        var j' := if j < p then j else j + 1;
        assert r.queue[i] == q[i'] && r.queue[j] == q[j'];
      }
    }
  }

  /** `FixedQueue`: a list of notifications and its `max_size`. */
  class FixedQueue {
    var maxSize: int
    var queue: seq<Notification>

    ghost predicate Valid()
      reads this
    {
      QueueInvariant(queue, maxSize)
    }

    constructor (maxSize: int)
      ensures Valid()
      ensures this.maxSize == maxSize && queue == []
    {
      this.maxSize := maxSize;
      queue := [];
    }

    /** `any(n.id == notification.id for n in self.queue)`. */
    method HasId(id: Option<string>) returns (found: bool)
      ensures found <==> ContainsId(queue, id)
    {
      var i := 0;
      while i < |queue|
        invariant 0 <= i <= |queue|
        invariant forall j :: 0 <= j < i ==> queue[j].id != id
      {
        if queue[i].id == id {
          return true;
        }
        i := i + 1;
      }
      return false;
    }

    method Push(n: Option<Notification>) returns (raised: bool)
      requires Valid()
      modifies this
      ensures Valid() && maxSize == old(maxSize)
      ensures PushResult(queue, raised) == Pushed(old(queue), maxSize, n)
    {
      PushKeepsInvariant(queue, maxSize, n);
      if n.None? || !Truthy(n.value.id) {
        return false;
      }
      var present := HasId(n.value.id);
      if present {
        return false;
      }
      if |queue| >= maxSize {
        if queue == [] {
          // list.pop(0) on an empty list raises IndexError
          return true;
        }
        queue := queue[1..];
      }
      queue := queue + [n.value];
      raised := false;
    }

    method Pop(index: int) returns (r: Option<Notification>, raised: bool)
      requires Valid()
      modifies this
      ensures Valid() && maxSize == old(maxSize)
      ensures PopResult(queue, r, raised) == PoppedAt(old(queue), index)
    {
      PopKeepsInvariant(queue, maxSize, index);
      if queue == [] {
        return None, false;
      }
      if !(-|queue| <= index < |queue|) {
        return None, true;
      }
      var p := if index >= 0 then index else |queue| + index;
      r := Some(queue[p]);
      queue := queue[..p] + queue[p + 1..];
      raised := false;
    }

    /** `__len__`. */
    method Len() returns (n: nat)
      ensures n == |queue|
    {
      n := |queue|;
    }
  }
}
