/** Python list and truthiness semantics that the watcher code relies on:
    negative indexing, `list.remove`, `list.reverse` and the falsiness of
    `None` and of the empty string. */
module PyLists {

  datatype Option<+T> = None | Some(value: T)

  /** `not s` in Python for an optional string: None and "" are falsy. */
  predicate Truthy(s: Option<string>) {
    s.Some? && s.value != ""
  }

  /** Python's `xs[i]`: negative indices count from the end; anything outside
      `-len(xs) <= i < len(xs)` raises IndexError (None here). */
  function PyIndex<T>(xs: seq<T>, i: int): (r: Option<T>)
    ensures r.Some? <==> -|xs| <= i < |xs|
    ensures 0 <= i < |xs| ==> r == Some(xs[i])
    ensures -|xs| <= i < 0 ==> r == Some(xs[|xs| + i])
  {
    if 0 <= i < |xs| then Some(xs[i])
    else if -|xs| <= i < 0 then Some(xs[|xs| + i])
    else None
  }

  /** The non-negative position `xs[i]` refers to, for an index PyIndex accepts. */
  function PyPosition(len: nat, i: int): (p: nat)
    requires -(len as int) <= i < len
    ensures p < len
    ensures i >= 0 ==> p == i
    ensures i < 0 ==> p + (-i) == len
  {
    if i >= 0 then i else len + i
  }

  /** Python's `xs[-k:]` for k > 0: the last k elements, or all of them. */
  function LastN<T>(xs: seq<T>, k: nat): (r: seq<T>)
    ensures |r| == if |xs| <= k then |xs| else k
    ensures r == xs[|xs| - |r|..]
  {
    if |xs| <= k then xs else xs[|xs| - k..]
  }

  /** Index of the first element equal to x, if any. */
  function IndexOf<T(==)>(xs: seq<T>, x: T): (r: Option<nat>)
    ensures r.Some? ==> (r.value < |xs| && xs[r.value] == x &&
                         forall j :: 0 <= j < r.value ==> xs[j] != x)
    ensures r.None? ==> x !in xs
  {
    if xs == [] then None
    else if xs[0] == x then Some(0)
    else match IndexOf(xs[1..], x)
      case None => None
      case Some(k) => Some(k + 1)
  }

  /** Python's `xs.remove(x)`: drops the first element equal to x; when there
      is none it raises ValueError, reported here as `raised`. */
  datatype Removal<T> = Removal(list: seq<T>, raised: bool)

  function Remove<T(==)>(xs: seq<T>, x: T): (r: Removal<T>)
    ensures r.raised <==> x !in xs
    ensures r.raised ==> r.list == xs
    ensures !r.raised ==> |r.list| + 1 == |xs|
  {
    match IndexOf(xs, x)
    case None => Removal(xs, true)
    case Some(k) => Removal(xs[..k] + xs[k + 1..], false)
  }

  /** Removing an element that is known to sit first at position k. */
  lemma RemoveAt<T>(xs: seq<T>, x: T, k: nat)
    requires k < |xs| && xs[k] == x
    requires forall j :: 0 <= j < k ==> xs[j] != x
    ensures Remove(xs, x) == Removal(xs[..k] + xs[k + 1..], false)
  {
    assert IndexOf(xs, x).Some?;
  }

  /** Python's `xs.remove(x)` followed by `except: pass`, applied to each
      element of `targets` in turn. */
  function RemoveEach<T(==)>(xs: seq<T>, targets: seq<T>): seq<T>
    decreases |targets|
  {
    if targets == [] then xs
    else RemoveEach(Remove(xs, targets[0]).list, targets[1..])
  }

  /** Removing an element other than the head leaves the head in front. */
  lemma RemoveBehindHead<T>(h: T, t: seq<T>, x: T)
    requires h != x
    ensures Remove([h] + t, x).list == [h] + Remove(t, x).list
  {
    var ht := [h] + t;
    assert ht[0] == h && ht[1..] == t;
    match IndexOf(t, x) {
      case None =>
        assert IndexOf(ht, x).None?;
      case Some(k) =>
        assert IndexOf(ht, x) == Some(k + 1);
        assert ht[..k + 1] + ht[k + 2..] == [h] + (t[..k] + t[k + 1..]);
    }
  }

  /** An element that none of the targets equals stays at the front. */
  lemma {:induction false} RemoveEachKeepsHead<T>(h: T, t: seq<T>, targets: seq<T>)
    requires h !in targets
    ensures RemoveEach([h] + t, targets) == [h] + RemoveEach(t, targets)
    decreases |targets|
  {
    if targets != [] {
      var x := targets[0];
      assert h != x;
      RemoveBehindHead(h, t, x);
      assert h !in targets[1..];
      RemoveEachKeepsHead(h, Remove(t, x).list, targets[1..]);
    }
  }

  /** Python's `list.reverse()` as a value. */
  function Reverse<T>(xs: seq<T>): (r: seq<T>)
    ensures |r| == |xs|
    ensures forall k :: 0 <= k < |xs| ==> r[k] == xs[|xs| - 1 - k]
  {
    seq(|xs|, k requires 0 <= k < |xs| => xs[|xs| - 1 - k])
  }

  /** The elements of xs that satisfy p, in their original order. */
  function Filter<T>(xs: seq<T>, p: T -> bool): (r: seq<T>)
    ensures |r| <= |xs|
  {
    if xs == [] then []
    else if p(xs[0]) then [xs[0]] + Filter(xs[1..], p)
    else Filter(xs[1..], p)
  }

  /** Every element a filter keeps satisfies the predicate. */
  lemma {:induction false} FilterSatisfies<T>(xs: seq<T>, p: T -> bool, x: T)
    requires x in Filter(xs, p)
    ensures p(x)
  {
    if !(p(xs[0]) && x == xs[0]) {
      FilterSatisfies(xs[1..], p, x);
    }
  }

  /** Removing, one `remove` at a time, every element that satisfies p leaves
      exactly the others (those satisfying its negation np), in order: the
      two-pass "collect, then remove" idiom equals a filter. */
  lemma {:induction false} RemoveEachFiltered<T>(xs: seq<T>, p: T -> bool, np: T -> bool)
    requires forall x :: np(x) == !p(x)
    ensures RemoveEach(xs, Filter(xs, p)) == Filter(xs, np)
  {
    if xs != [] {
      var h, t := xs[0], xs[1..];
      assert xs == [h] + t;
      if p(h) {
        RemoveAt(xs, h, 0);
        assert xs[..0] + xs[1..] == t;
        RemoveEachFiltered(t, p, np);
      } else {
        RemoveEachFiltered(t, p, np);
        if h in Filter(t, p) {
          FilterSatisfies(t, p, h);
        }
        RemoveEachKeepsHead(h, t, Filter(t, p));
      }
    }
  }

  lemma {:induction false} FilterAppend<T>(a: seq<T>, b: seq<T>, p: T -> bool)
    ensures Filter(a + b, p) == Filter(a, p) + Filter(b, p)
  {
    if a != [] {
      assert (a + b)[0] == a[0];
      assert (a + b)[1..] == a[1..] + b;
      FilterAppend(a[1..], b, p);
    } else {
      assert a + b == b;
    }
  }
}
