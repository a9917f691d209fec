/**
  The window numbers of pascal/meniu.pas: every window takes the least free number
  in 1..maxWindows, and the Open command is disabled while all are taken.
*/
module Windows {
  const NO_NUMBER: int := 0 // wnnonumber

  // The window numbers, 1 to max.
  function Numbers(max: nat): (r: set<int>)
    ensures forall i :: i in r <==> 1 <= i <= max
    ensures |r| == max
  {
    if max == 0 then {} else Numbers(max - 1) + {max}
  }

  // Pigeonhole: fewer than max numbers taken leave one free.
  lemma SomeNumberFree(taken: set<int>, max: nat)
    requires |taken| < max
    ensures exists i :: 1 <= i <= max && i !in taken
  {
    if forall i :: 1 <= i <= max ==> i in taken {
      assert Numbers(max) <= taken;
      SubsetCount(Numbers(max), taken);
    }
  }

  lemma SubsetCount(a: set<int>, b: set<int>)
    requires a <= b
    ensures |a| <= |b|
  {
    assert a + (b - a) == b;
  }

  // The set of a sequence, and its size when nothing repeats.
  function ToSet(s: seq<int>): (r: set<int>)
    ensures forall x :: x in r <==> x in s
  {
    set i | 0 <= i < |s| :: s[i]
  }

  ghost predicate Distinct(s: seq<int>) {
    forall i, j :: 0 <= i < j < |s| ==> s[i] != s[j]
  }

  lemma {:induction false} DistinctCount(s: seq<int>)
    requires Distinct(s)
    ensures |ToSet(s)| == |s|
  {
    if s == [] {
    } else {
      var init, last := s[..|s| - 1], s[|s| - 1];
      DistinctCount(init);
      assert ToSet(s) == ToSet(init) + {last};
      assert last !in ToSet(init);
    }
  }

  // The numbers of the windows are recorded, counted, and in range.
  ghost predicate Consistent(windows: seq<int>, winN: set<int>, count: int, max: nat) {
    && Distinct(windows) && winN == ToSet(windows) && count == |windows| == |winN|
    && forall i :: i in winN ==> 1 <= i <= max
  }

  class Application {
    const maxWindows: int
    var nrFereastra: int
    var winN: set<int>
    var openEnabled: bool       // the command cmopen
    var windows: seq<int>       // the numbers of the windows on the desktop, oldest first

    ghost predicate Valid()
      reads this
    {
      && maxWindows >= 1
      && Consistent(windows, winN, nrFereastra, maxWindows)
      && openEnabled == (nrFereastra < maxWindows)
    }

    constructor (maxWindows: int)
      requires maxWindows >= 1
      ensures Valid() && this.maxWindows == maxWindows && windows == []
    {
      this.maxWindows := maxWindows;
      nrFereastra, winN, openEnabled, windows := 0, {}, true, [];
    }

    method GetWindowNumber() returns (number: int)
      requires maxWindows >= 1
      modifies this`winN
      ensures if forall i :: 1 <= i <= maxWindows ==> i in old(winN) then number == NO_NUMBER && winN == old(winN)
              else 1 <= number <= maxWindows && number !in old(winN) && (forall j :: 1 <= j < number ==> j in old(winN))
                   && winN == old(winN) + {number}
    {
      for i := 1 to maxWindows + 1
        invariant winN == old(winN)
        invariant forall j :: 1 <= j < i ==> j in winN
      {
        if i !in winN {
          winN := winN + {i};
          return i;
        }
      }
      return NO_NUMBER;
    }

    method PutWindowNumber(number: int)
      modifies this`winN
      ensures winN == if 1 <= number <= maxWindows then old(winN) - {number} else old(winN)
    {
      if 1 <= number && number <= maxWindows {
        winN := winN - {number};
      }
    }

    // fereastra.init, reached through the Open command or, before any other window,
    // from ex.init when the program has an argument.
    method Open() returns (number: int)
      requires Valid() && openEnabled
      modifies this
      ensures Valid()
      ensures 1 <= number <= maxWindows && number !in old(windows)
      ensures forall j :: 1 <= j < number ==> j in old(windows)
      ensures windows == old(windows) + [number]
    {
      SomeNumberFree(winN, maxWindows);
      ghost var taken, count := winN, nrFereastra;
      nrFereastra := nrFereastra + 1;
      number := GetWindowNumber();
      OneMoreWindow(windows, taken, count, maxWindows, number);
      windows := windows + [number];
      if nrFereastra >= maxWindows {
        openEnabled := false;
      }
    }

    // fereastra.close of the window at position at.
    method Close(at: nat)
      requires Valid() && at < |windows|
      modifies this
      ensures Valid() && openEnabled
      ensures windows == old(windows)[..at] + old(windows)[at + 1..]
      ensures winN == old(winN) - {old(windows)[at]}
    {
      var was, number := windows, windows[at];
      OneWindowLess(was, winN, nrFereastra, maxWindows, at);
      PutWindowNumber(number);
      nrFereastra := nrFereastra - 1;
      openEnabled := true;
      windows := was[..at] + was[at + 1..];
    }
  }

  lemma OneMoreWindow(s: seq<int>, taken: set<int>, count: int, max: nat, x: int)
    requires Consistent(s, taken, count, max) && x !in taken && 1 <= x <= max
    ensures Consistent(s + [x], taken + {x}, count + 1, max)
    ensures x !in s && forall j :: j in taken <==> j in s
  {
    AddOne(s, x);
    DistinctCount(s + [x]);
  }

  lemma OneWindowLess(s: seq<int>, taken: set<int>, count: int, max: nat, at: nat)
    requires Consistent(s, taken, count, max) && at < |s|
    ensures Consistent(s[..at] + s[at + 1..], taken - {s[at]}, count - 1, max)
    ensures 1 <= s[at] <= max && count <= max
  {
    assert s[at] in ToSet(s);
    RemoveOne(s, at);
    DistinctCount(s[..at] + s[at + 1..]);
    assert ToSet(s) <= Numbers(max);
    SubsetCount(ToSet(s), Numbers(max));
  }

  lemma AddOne(s: seq<int>, x: int)
    requires Distinct(s) && x !in ToSet(s)
    ensures Distinct(s + [x]) && ToSet(s + [x]) == ToSet(s) + {x}
  {
    var t := s + [x];
    assert t[|s|] == x;
    forall i | 0 <= i < |s|
      ensures s[i] in ToSet(t) && s[i] in ToSet(s)
    {
      assert t[i] == s[i];
    }
  }

  lemma RemoveOne(s: seq<int>, at: nat)
    requires Distinct(s) && at < |s|
    ensures var t := s[..at] + s[at + 1..];
            Distinct(t) && ToSet(t) == ToSet(s) - {s[at]}
  {
    var t := s[..at] + s[at + 1..];
    forall i | 0 <= i < |s| && i != at
      ensures s[i] in ToSet(t)
    {
      assert s[i] == t[if i < at then i else i - 1];
    }
  }

  // Any run of opens and closes; an Open while the command is disabled does nothing.
  datatype Event = OpenCommand | CloseWindow(at: nat)

  // What one event makes of the open windows, by their numbers.
  ghost predicate EventGives(max: int, before: seq<int>, event: Event, after: seq<int>) {
    match event
    case OpenCommand =>
      if |before| >= max then after == before
      else |after| == |before| + 1 && after[..|before|] == before && IsLeastFree(after[|before|], before, max)
    case CloseWindow(at) =>
      after == if at < |before| then before[..at] + before[at + 1..] else before
  }

  ghost predicate IsLeastFree(number: int, taken: seq<int>, max: int) {
    1 <= number <= max && number !in taken && forall j :: 1 <= j < number ==> j in taken
  }

  // Opening while there is room adds the least free number at the end and takes none
  // away; with none left it does nothing.  Closing removes one window.
  lemma EventLaws(max: int, before: seq<int>, event: Event, after: seq<int>)
    requires EventGives(max, before, event, after)
    ensures event.OpenCommand? && |before| >= max ==> after == before
    ensures event.OpenCommand? && |before| < max ==>
              exists number :: after == before + [number] && 1 <= number <= max && number !in before
                               && forall j :: 1 <= j < number ==> j in before
    ensures event.CloseWindow? && event.at < |before| ==>
              |after| == |before| - 1 && (forall k :: 0 <= k < event.at ==> after[k] == before[k])
              && forall k :: event.at <= k < |after| ==> after[k] == before[k + 1]
    ensures event.CloseWindow? && event.at >= |before| ==> after == before
  {
    if event.OpenCommand? && |before| < max {
      assert after == before + [after[|before|]];
    }
  }

  // Event by event: `trace` holds the open windows before each event and at the end.
  method Run(app: Application, events: seq<Event>) returns (ghost trace: seq<seq<int>>)
    requires app.Valid()
    modifies app
    ensures app.Valid()
    ensures |trace| == |events| + 1 && trace[0] == old(app.windows) && trace[|events|] == app.windows
    ensures forall k :: 0 <= k < |events| ==> EventGives(app.maxWindows, trace[k], events[k], trace[k + 1])
  {
    trace := [app.windows];
    for k := 0 to |events|
      invariant app.Valid() && |trace| == k + 1 && trace[0] == old(app.windows) && trace[k] == app.windows
      invariant forall i :: 0 <= i < k ==> EventGives(app.maxWindows, trace[i], events[i], trace[i + 1])
    {
      match events[k] {
        case OpenCommand =>
          if app.openEnabled {
            var number := app.Open();
          }
        case CloseWindow(at) =>
          if at < |app.windows| {
            app.Close(at);
          }
      }
      trace := trace + [app.windows];
    }
  }
}
