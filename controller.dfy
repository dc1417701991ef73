/** The pure part of the device controller: reading the centre of a
    uiautomator bounds string and choosing the endpoints of a scroll swipe. */
module Controller {
  import opened PyLists
  import opened PyText

  /** Length of the run of decimal digits that s starts with. */
  function LeadingDigits(s: string): (k: nat)
    ensures k <= |s|
    ensures AllDigits(s[..k])
    ensures k < |s| ==> !IsDigit(s[k])
    ensures s != [] && IsDigit(s[0]) ==> k >= 1
    ensures AllDigits(s) ==> k == |s|
  {
    if s != [] && IsDigit(s[0]) then 1 + LeadingDigits(s[1..]) else 0
  }

  /** `list(map(int, re.findall(r'\d+', s)))`: the values of the maximal
      runs of decimal digits, left to right. */
  function DigitRuns(s: string): (r: seq<nat>)
    ensures |r| <= |s|
    ensures (forall i :: 0 <= i < |s| ==> !IsDigit(s[i])) ==> r == []
    ensures s != [] && AllDigits(s) ==> r == [DecimalValue(s)]
    decreases |s|
  {
    if s == [] then []
    else if !IsDigit(s[0]) then DigitRuns(s[1..])
    else
      var k := LeadingDigits(s);
      assert AllDigits(s) ==> s[..k] == s && s[k..] == [];
      [DecimalValue(s[..k])] + DigitRuns(s[k..])
  }

  /** `get_bounds_center`: the floor midpoint of the first four integers of
      the string; fewer than four raises IndexError (None). */
  function GetBoundsCenter(bounds: string): (r: Option<(int, int)>)
    ensures r.None? <==> |DigitRuns(bounds)| < 4
    ensures r.Some? ==>
      var n := DigitRuns(bounds);
      2 * r.value.0 <= n[0] + n[2] < 2 * r.value.0 + 2 &&
      2 * r.value.1 <= n[1] + n[3] < 2 * r.value.1 + 2
  {
    var nums := DigitRuns(bounds);
    if |nums| < 4 then None
    else Some(((nums[0] + nums[2]) / 2, (nums[1] + nums[3]) / 2))
  }

  /** The centre of a well-ordered rectangle lies inside it. */
  lemma CenterInside(bounds: string)
    requires |DigitRuns(bounds)| >= 4
    requires DigitRuns(bounds)[0] <= DigitRuns(bounds)[2]
    requires DigitRuns(bounds)[1] <= DigitRuns(bounds)[3]
    ensures GetBoundsCenter(bounds).Some?
    ensures var n, c := DigitRuns(bounds), GetBoundsCenter(bounds).value;
      n[0] <= c.0 <= n[2] && n[1] <= c.1 <= n[3]
  {
  }

  // ---- The text a bounds attribute is written in, and reading it back ----

  lemma {:induction false} LeadingDigitsOfRun(t: string, rest: string)
    requires AllDigits(t)
    requires rest == [] || !IsDigit(rest[0])
    ensures LeadingDigits(t + rest) == |t|
  {
    if t != [] {
      assert (t + rest)[1..] == t[1..] + rest;
      LeadingDigitsOfRun(t[1..], rest);
    } else {
      assert t + rest == rest;
    }
  }

  /** A number written out and followed by a separator is read back as one run. */
  lemma DigitRunsOfNumber(n: nat, rest: string)
    requires rest == [] || !IsDigit(rest[0])
    ensures DigitRuns(NatToString(n) + rest) == [n] + DigitRuns(rest)
  {
    var t := NatToString(n);
    var s := t + rest;
    LeadingDigitsOfRun(t, rest);
    assert s[..|t|] == t;
    assert s[|t|..] == rest;
    DecimalValueOfNatToString(n);
  }

  lemma DigitRunsSkip(c: char, rest: string)
    requires !IsDigit(c)
    ensures DigitRuns([c] + rest) == DigitRuns(rest)
  {
    assert ([c] + rest)[1..] == rest;
  }

  /** One corner, `x,y`, followed by the rest of the attribute. */
  function Corner(x: nat, y: nat, rest: string): string {
    NatToString(x) + ([','] + (NatToString(y) + rest))
  }

  /** uiautomator's bounds attribute, `[x0,y0][x1,y1]`. */
  function FormatBounds(x0: nat, y0: nat, x1: nat, y1: nat): string {
    ['['] + Corner(x0, y0, [']'] + (['['] + Corner(x1, y1, [']'])))
  }

  lemma CornerRuns(x: nat, y: nat, rest: string)
    requires rest != [] && !IsDigit(rest[0])
    ensures DigitRuns(Corner(x, y, rest)) == [x, y] + DigitRuns(rest)
  {
    DigitRunsOfNumber(y, rest);
    DigitRunsSkip(',', NatToString(y) + rest);
    DigitRunsOfNumber(x, [','] + (NatToString(y) + rest));
  }

  /** Reading a formatted bounds attribute gives back its four corners. */
  lemma DigitRunsOfBounds(x0: nat, y0: nat, x1: nat, y1: nat)
    ensures DigitRuns(FormatBounds(x0, y0, x1, y1)) == [x0, y0, x1, y1]
  {
    var tail := Corner(x1, y1, [']']);
    CornerRuns(x1, y1, [']']);
    DigitRunsSkip(']', []);
    assert [']'] == [']'] + [];
    DigitRunsSkip('[', tail);
    var mid := [']'] + (['['] + tail);
    DigitRunsSkip(']', ['['] + tail);
    CornerRuns(x0, y0, mid);
    DigitRunsSkip('[', Corner(x0, y0, mid));
  }

  /** `get_bounds_center` on a bounds attribute is the floor midpoint of its corners. */
  lemma CenterOfFormattedBounds(x0: nat, y0: nat, x1: nat, y1: nat)
    ensures GetBoundsCenter(FormatBounds(x0, y0, x1, y1)) == Some(((x0 + x1) / 2, (y0 + y1) / 2))
  {
    DigitRunsOfBounds(x0, y0, x1, y1);
    CenterOfRuns(FormatBounds(x0, y0, x1, y1), x0, y0, x1, y1);
  }

  lemma CenterOfRuns(s: string, x0: nat, y0: nat, x1: nat, y1: nat)
    requires DigitRuns(s) == [x0, y0, x1, y1]
    ensures GetBoundsCenter(s) == Some(((x0 + x1) / 2, (y0 + y1) / 2))
  {
    var n := DigitRuns(s);
    assert n[0] == x0 && n[1] == y0 && n[2] == x1 && n[3] == y1;
  }

  lemma {:induction false} LeadingDigitsAppend(s: string, t: string)
    requires LeadingDigits(s) < |s|
    ensures LeadingDigits(s + t) == LeadingDigits(s)
  {
    if IsDigit(s[0]) {
      assert (s + t)[1..] == s[1..] + t;
      LeadingDigitsAppend(s[1..], t);
    }
  }

  /** Text after a non-digit splits the runs cleanly. */
  lemma {:induction false} DigitRunsAppend(s: string, t: string)
    requires s != [] && !IsDigit(s[|s| - 1])
    ensures DigitRuns(s + t) == DigitRuns(s) + DigitRuns(t)
    decreases |s|
  {
    var st := s + t;
    if !IsDigit(s[0]) {
      if |s| == 1 {
        assert st[1..] == t;
      } else {
        assert st[1..] == s[1..] + t;
        DigitRunsAppend(s[1..], t);
      }
    } else {
      var k := LeadingDigits(s);
      LeadingDigitsAppend(s, t);
      assert st[..k] == s[..k];
      assert st[k..] == s[k..] + t;
      DigitRunsAppend(s[k..], t);
    }
  }

  /** Digit runs after the fourth play no part in the result. */
  lemma LaterRunsIgnored(s: string, t: string)
    requires |DigitRuns(s)| >= 4
    requires !IsDigit(s[|s| - 1])
    ensures GetBoundsCenter(s + t) == GetBoundsCenter(s)
  {
    DigitRunsAppend(s, t);
  }

  // ---- Scrolling ----

  /** The endpoints `scroll_up` swipes between: the screen entries at index 1
      and at index len - 2, each read with Python indexing. */
  function ScrollUpEndpoints(screen: seq<string>): (r: Option<(string, string)>)
    ensures r.Some? <==> |screen| >= 2
    ensures r.Some? ==> r.value == (screen[1], screen[|screen| - 2])
  {
    match PyIndex(screen, 1)
    case None => None
    case Some(first) =>
      match PyIndex(screen, |screen| - 2)
      case None => None
      case Some(second) => Some((first, second))
  }

  /** `scroll_down` evaluates the len - 2 entry first, then index 1. */
  function ScrollDownEndpoints(screen: seq<string>): (r: Option<(string, string)>)
    ensures r.Some? <==> |screen| >= 2
    ensures r.Some? ==> r.value == (screen[|screen| - 2], screen[1])
  {
    match PyIndex(screen, |screen| - 2)
    case None => None
    case Some(first) =>
      match PyIndex(screen, 1)
      case None => None
      case Some(second) => Some((first, second))
  }

  /** Scrolling down swipes between the same two entries as scrolling up, reversed. */
  lemma ScrollDownReversesScrollUp(screen: seq<string>)
    ensures ScrollDownEndpoints(screen).Some? <==> ScrollUpEndpoints(screen).Some?
    ensures ScrollUpEndpoints(screen).Some? ==>
      ScrollDownEndpoints(screen).value ==
        (ScrollUpEndpoints(screen).value.1, ScrollUpEndpoints(screen).value.0)
  {
  }

  /** `swipe_by_bounds`: the two centres it swipes between. */
  function SwipeByBounds(from: string, to: string): (r: Option<((int, int), (int, int))>)
    ensures r.Some? <==> GetBoundsCenter(from).Some? && GetBoundsCenter(to).Some?
    ensures r.Some? ==> r.value == (GetBoundsCenter(from).value, GetBoundsCenter(to).value)
  {
    match GetBoundsCenter(from)
    case None => None
    case Some(a) =>
      match GetBoundsCenter(to)
      case None => None
      case Some(b) => Some((a, b))
  }
}
