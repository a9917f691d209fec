/**
  The track list of python/sftp_mp3.py: cursor, scroll offset and marks, as the key
  handling of PlayerUI.run and PlayerUI._ensure_visible update them.
*/
module PlayerList {
  // A key press; Refresh carries what reload_fn gives, or None when it raises.
  datatype Reload = NewFiles(files: seq<string>) | Failed
  datatype Key = Quit | Up | Down | PageUp | PageDown | Home | End | Mark | Play | PlayMarked
               | Refresh(reload: Reload) | Other

  // One round of the loop: the screen heights at the draw, when the key is read,
  // and at the extra draw of a refresh.
  datatype Round = Round(drawHeight: int, keyHeight: int, redrawHeight: int, key: Key)

  function Body(height: int): (body: int)
    ensures body >= 1
    ensures height >= 5 ==> body == height - 4
    ensures height <= 5 ==> body == 1
  {
    var h := height - 2 - 2;
    if h < 1 then 1 else h
  }

  function Distance(a: int, b: int): (d: nat)
    ensures d == a - b || d == b - a
  {
    if a <= b then b - a else a - b
  }

  // `names` are the tracks at the positions in `order`: the marked ones, or all, by rising position.
  ghost predicate InListOrder(names: seq<string>, order: seq<int>, files: seq<string>, marked: set<int>) {
    && (forall i, j :: 0 <= i < j < |order| ==> order[i] < order[j]) && |names| == |order|
    && (forall k :: 0 <= k < |order| ==> 0 <= order[k] < |files| && names[k] == files[order[k]])
    && (forall t :: t in order <==> if marked != {} then t in marked else 0 <= t < |files|)
  }

  // The state between two draws.
  datatype State = State(files: seq<string>, cursor: int, offset: int, marked: set<int>)

  ghost predicate Proper(s: State) {
    && 0 <= s.cursor && (s.cursor < |s.files| || s.cursor == 0)
    && 0 <= s.offset
    && forall i :: i in s.marked ==> 0 <= i < |s.files|
  }

  // A draw scrolls just enough: the cursor is on screen, and no closer offset shows it.
  ghost predicate LeastScroll(s: State, s': State, body: int) {
    && s' == s.(offset := s'.offset) && s'.offset <= s.cursor < s'.offset + body
    && forall o :: o <= s.cursor < o + body ==> Distance(s.offset, s'.offset) <= Distance(s.offset, o)
  }

  lemma ScrollLaw(s: State, s': State, body: int)
    requires LeastScroll(s, s', body) && body >= 1
    ensures s'.files == s.files && s'.cursor == s.cursor && s'.marked == s.marked
    ensures s'.offset <= s'.cursor < s'.offset + body
    ensures s.offset <= s.cursor < s.offset + body ==> s'.offset == s.offset
    ensures s.cursor < s.offset ==> s'.offset == s.cursor
    ensures s.cursor >= s.offset + body ==> s'.offset == s.cursor - body + 1
  {
    var o := if s.cursor < s.offset then s.cursor
             else if s.cursor >= s.offset + body then s.cursor - body + 1 else s.offset;
    assert Distance(s.offset, s'.offset) <= Distance(s.offset, o);
  }

  // What a key makes of a state.  `played` is what is handed to _play_names, if anything is.
  ghost predicate Follows(s: State, key: Key, keyBody: int, redrawBody: int, s': State, played: seq<string>) {
    match key
    case Quit => false
    case Up => s' == s.(cursor := Clamp(s.cursor - 1, |s.files|)) && played == []
    case Down => s' == s.(cursor := Clamp(s.cursor + 1, |s.files|)) && played == []
    case PageUp => s' == s.(cursor := Clamp(s.cursor - keyBody, |s.files|)) && played == []
    case PageDown => s' == s.(cursor := Clamp(s.cursor + keyBody, |s.files|)) && played == []
    case Home => s' == s.(cursor := 0) && played == []
    case End => s' == s.(cursor := Clamp(|s.files|, |s.files|)) && played == []
    case Mark =>
      && s' == s.(cursor := Clamp(s.cursor + 1, |s.files|), marked := s'.marked) && played == []
      && s'.marked == if s.files == [] then s.marked
                      else if s.cursor in s.marked then s.marked - {s.cursor} else s.marked + {s.cursor}
    case Play => s' == s && played == if s.files == [] then [] else [s.files[Clamp(s.cursor, |s.files|)]]
    case PlayMarked => s' == s && exists order :: InListOrder(played, order, s.files, s.marked)
    case Refresh(NewFiles(files)) => s' == State(files, Clamp(s.cursor, |files|), 0, {}) && played == []
    case Refresh(Failed) => LeastScroll(s, s', redrawBody) && played == []
    case Other => s' == s && played == []
  }

  // The nearest list position, 0 for an empty list.
  function Clamp(x: int, n: nat): (c: int)
    ensures n > 0 ==> 0 <= c < n
    ensures n == 0 ==> c == 0
    ensures 0 <= x < n ==> c == x
    ensures x >= n > 0 ==> c == n - 1
    ensures x <= 0 ==> c == 0
  {
    if x < 0 || n == 0 then 0 else if x >= n then n - 1 else x
  }

  // One round: the state before the draw, the one it shows, and the one the key leaves.
  datatype Frame = Frame(before: State, shown: State, after: State, played: seq<string>)

  ghost predicate RoundGives(round: Round, f: Frame) {
    && Proper(f.before) && Proper(f.shown) && Proper(f.after)
    && LeastScroll(f.before, f.shown, Body(round.drawHeight))
    && if round.key == Quit then f.after == f.shown && f.played == []
       else Follows(f.shown, round.key, Body(round.keyHeight), Body(round.redrawHeight), f.after, f.played)
  }

  function After(start: State, frames: seq<Frame>): State {
    if frames == [] then start else frames[|frames| - 1].after
  }

  // Each frame is what its round gives, from the state that the one before has left.
  ghost predicate Trace(rounds: seq<Round>, frames: seq<Frame>, start: State)
    decreases |frames|
  {
    frames == [] ||
    (var n := |frames| - 1;
     n < |rounds| && Trace(rounds, frames[..n], start) && RoundGives(rounds[n], frames[n])
     && frames[n].before == After(start, frames[..n]))
  }

  // The frames of the rounds so far, and the state they leave.
  ghost predicate Played(rounds: seq<Round>, frames: seq<Frame>, start: State, now: State) {
    Trace(rounds, frames, start) && now == After(start, frames)
  }

  lemma OneMoreFrame(rounds: seq<Round>, frames: seq<Frame>, frame: Frame, start: State)
    requires Trace(rounds, frames, start) && |frames| < |rounds| && RoundGives(rounds[|frames|], frame)
    requires frame.before == After(start, frames)
    ensures Trace(rounds, frames + [frame], start) && After(start, frames + [frame]) == frame.after
  {
    assert (frames + [frame])[..|frames|] == frames;
  }

  // Key by key, from a proper state: where the cursor goes.
  lemma CursorLaws(s: State, key: Key, keyBody: int, redrawBody: int, s': State, played: seq<string>)
    requires Proper(s) && keyBody >= 1 && redrawBody >= 1 && Follows(s, key, keyBody, redrawBody, s', played)
    ensures Proper(s')
    ensures key.Up? && s.cursor > 0 ==> s'.cursor == s.cursor - 1
    ensures key.Up? && s.cursor == 0 ==> s'.cursor == 0
    ensures (key.Down? || key.Mark?) && s.cursor + 1 < |s.files| ==> s'.cursor == s.cursor + 1
    ensures (key.Down? || key.Mark?) && s.cursor + 1 >= |s.files| ==> s'.cursor == s.cursor
    ensures key.PageUp? && s.cursor >= keyBody ==> s'.cursor == s.cursor - keyBody
    ensures key.PageUp? && s.cursor < keyBody ==> s'.cursor == 0
    ensures key.PageDown? && s.cursor + keyBody < |s.files| ==> s'.cursor == s.cursor + keyBody
    ensures (key.PageDown? && s.cursor + keyBody >= |s.files| > 0) || (key.End? && s.files != []) ==>
              s'.cursor == |s.files| - 1
    ensures key.Home? || s'.files == [] ==> s'.cursor == 0
    ensures key.Play? || key.PlayMarked? || key.Other? ==> s'.cursor == s.cursor
    ensures key.Refresh? && (key.reload.Failed? || s.cursor < |s'.files|) ==> s'.cursor == s.cursor
    ensures key.Refresh? && s.cursor >= |s'.files| > 0 ==> s'.cursor == |s'.files| - 1
  {
    if key.Refresh? && key.reload.Failed? {
      ScrollLaw(s, s', redrawBody);
    }
  }

  // What a run shows and does, round by round.
  lemma {:induction false} TraceLaws(rounds: seq<Round>, frames: seq<Frame>, start: State, i: nat)
    requires Trace(rounds, frames, start) && i < |frames|
    ensures |frames| <= |rounds|
    ensures frames[i].before == if i == 0 then start else frames[i - 1].after
    ensures var s, body := frames[i].shown, Body(rounds[i].drawHeight);
            LeastScroll(frames[i].before, s, body) && s.offset <= s.cursor < s.offset + body
    ensures rounds[i].key == Quit ==> frames[i].after == frames[i].shown && frames[i].played == []
    ensures rounds[i].key != Quit ==>
              Follows(frames[i].shown, rounds[i].key, Body(rounds[i].keyHeight), Body(rounds[i].redrawHeight),
                      frames[i].after, frames[i].played)
    decreases |frames|
  {
    var n := |frames| - 1;
    if i < n {
      TraceLaws(rounds, frames[..n], start, i);
    }
  }

  // The state after the run is the one that the last round has left.
  lemma FinalState(rounds: seq<Round>, frames: seq<Frame>, start: State, now: State)
    requires Played(rounds, frames, start, now)
    ensures Trace(rounds, frames, start)
    ensures now == if frames == [] then start else frames[|frames| - 1].after
  {
  }

  // What else changes.
  lemma ListLaws(s: State, key: Key, keyBody: int, redrawBody: int, s': State, played: seq<string>)
    requires Proper(s) && redrawBody >= 1 && Follows(s, key, keyBody, redrawBody, s', played)
    ensures !(key.Refresh? && key.reload.NewFiles?) ==> s'.files == s.files
    ensures !key.Refresh? ==> s'.offset == s.offset
    ensures !key.Mark? && !(key.Refresh? && key.reload.NewFiles?) ==> s'.marked == s.marked
    ensures key.Mark? && s.files == [] ==> s'.marked == s.marked
    ensures key.Mark? && s.files != [] ==>
              (s.cursor in s'.marked <==> s.cursor !in s.marked)
              && forall t :: t != s.cursor ==> (t in s'.marked <==> t in s.marked)
    ensures key.Refresh? && key.reload.NewFiles? ==>
              s'.files == key.reload.files && s'.offset == 0 && s'.marked == {}
    ensures key.Refresh? && key.reload.Failed? ==> s'.offset <= s'.cursor < s'.offset + redrawBody
  {
  }

  // Which names are played.
  lemma PlayLaws(s: State, key: Key, keyBody: int, redrawBody: int, s': State, played: seq<string>)
    requires Proper(s) && Follows(s, key, keyBody, redrawBody, s', played)
    ensures key.Play? && s.files != [] ==> played == [s.files[s.cursor]]
    ensures key.Play? && s.files == [] ==> played == []
    ensures key.PlayMarked? ==>
              exists order: seq<int> ::
                |order| == |played| && (forall i, j :: 0 <= i < j < |order| ==> order[i] < order[j])
                && (forall k :: 0 <= k < |order| ==> 0 <= order[k] < |s.files| && played[k] == s.files[order[k]])
                && (forall t :: 0 <= t < |s.files| ==> (t in order <==> s.marked == {} || t in s.marked))
    ensures !key.Play? && !key.PlayMarked? ==> played == []
  {
    if key.PlayMarked? {
      var order :| InListOrder(played, order, s.files, s.marked);
    }
  }

  class PlayerUI {
    var files: seq<string>
    var cursor: int
    var offset: int
    var marked: set<int>

    ghost function Now(): State
      reads this
    {
      State(files, cursor, offset, marked)
    }

    ghost predicate Valid()
      reads this
    {
      Proper(Now())
    }

    constructor (files: seq<string>)
      ensures Valid() && this.files == files && cursor == offset == 0 && marked == {}
    {
      this.files, cursor, offset, marked := files, 0, 0, {};
    }

    method EnsureVisible(body: int)
      requires Valid() && body >= 1
      modifies this`offset
      ensures Valid() && offset <= cursor < offset + body
      ensures LeastScroll(old(Now()), Now(), body)
    {
      if cursor < offset {
        offset := cursor;
      } else if cursor >= offset + body {
        offset := cursor - body + 1;
      }
    }

    // sorted(self.marked)
    method SortedMarks() returns (order: seq<int>)
      requires Valid()
      ensures forall i, j :: 0 <= i < j < |order| ==> order[i] < order[j]
      ensures forall t :: t in order <==> t in marked
    {
      order := [];
      var i := 0;
      while i < |files|
        invariant 0 <= i <= |files|
        invariant forall k, l :: 0 <= k < l < |order| ==> order[k] < order[l]
        invariant forall k :: 0 <= k < |order| ==> order[k] in marked && order[k] < i
        invariant forall t :: t in marked && t < i ==> t in order
      {
        if i in marked {
          order := order + [i];
        }
        i := i + 1;
      }
    }

    // The names `a` plays: the marked tracks in list order, or all of them.
    method NamesToPlay() returns (names: seq<string>)
      requires Valid()
      ensures exists order :: InListOrder(names, order, files, marked)
    {
      ghost var order;
      if marked != {} {
        var sorted := SortedMarks();
        order := sorted;
        assert forall k :: 0 <= k < |sorted| ==> sorted[k] in order;
        names := [];
        var k := 0;
        while k < |sorted|
          invariant 0 <= k <= |sorted| && |names| == k
          invariant forall j :: 0 <= j < |sorted| ==> sorted[j] in marked
          invariant forall j :: 0 <= j < k ==> 0 <= sorted[j] < |files| && names[j] == files[sorted[j]]
        {
          assert sorted[k] in marked;
          names := names + [files[sorted[k]]];
          k := k + 1;
        }
      } else {
        names := files;
        order := seq(|files|, i => i);
        forall t | 0 <= t < |files|
          ensures t in order
        {
          assert order[t] == t;
        }
      }
      assert InListOrder(names, order, files, marked);
    }

    // One key.
    method HandleKey(key: Key, keyBody: int, drawBody: int) returns (played: seq<string>)
      requires Valid() && keyBody >= 1 && drawBody >= 1 && key != Quit
      modifies this
      ensures Valid() && Follows(old(Now()), key, keyBody, drawBody, Now(), played)
    {
      played := [];
      match key
      case Up =>
        if files != [] {
          cursor := if cursor - 1 > 0 then cursor - 1 else 0;
        }
      case Down =>
        if files != [] {
          cursor := if cursor + 1 < |files| - 1 then cursor + 1 else |files| - 1;
        }
      case PageUp =>
        cursor := if cursor - keyBody > 0 then cursor - keyBody else 0;
      case PageDown =>
        if files != [] {
          cursor := if cursor + keyBody < |files| - 1 then cursor + keyBody else |files| - 1;
        }
      case Home =>
        cursor := 0;
      case End =>
        if files != [] {
          cursor := |files| - 1;
        }
      case Mark =>
        if files != [] {
          if cursor in marked {
            marked := marked - {cursor};
          } else {
            marked := marked + {cursor};
          }
          cursor := if cursor + 1 < |files| - 1 then cursor + 1 else |files| - 1;
        }
      case Play =>
        if files != [] {
          played := [files[cursor]];
        }
      case PlayMarked =>
        played := NamesToPlay();
      case Refresh(reload) =>
        EnsureVisible(drawBody);
        if reload.NewFiles? {
          files := reload.files;
          marked := {};
          var last := if |files| - 1 > 0 then |files| - 1 else 0;
          cursor := if cursor < last then cursor else last;
          offset := 0;
        }
      case Other =>
    }

    // The draw and the key of one round.
    method OneRound(round: Round) returns (ghost frame: Frame)
      requires Valid()
      modifies this
      ensures Valid() && RoundGives(round, frame) && frame.before == old(Now()) && frame.after == Now()
    {
      ghost var before := Now();
      EnsureVisible(Body(round.drawHeight));
      ghost var shown := Now();
      var played := [];
      if round.key != Quit {
        played := HandleKey(round.key, Body(round.keyHeight), Body(round.redrawHeight));
      }
      frame := Frame(before, shown, Now(), played);
    }

    method NextRound(rounds: seq<Round>, i: nat, ghost frames: seq<Frame>, ghost start: State)
      returns (ghost longer: seq<Frame>)
      requires Valid() && Played(rounds, frames, start, Now()) && |frames| == i < |rounds|
      modifies this
      ensures Valid() && Played(rounds, longer, start, Now()) && |longer| == |frames| + 1
    {
      ghost var frame := OneRound(rounds[i]);
      OneMoreFrame(rounds, frames, frame, start);
      longer := frames + [frame];
    }

    // The whole loop over any rounds, up to the first quit key: each round starts from
    // the state that the one before has left.
    method Run(rounds: seq<Round>) returns (ghost frames: seq<Frame>)
      requires Valid()
      modifies this
      ensures Valid() && |frames| <= |rounds|
      ensures Played(rounds, frames, old(Now()), Now())
      ensures forall i :: 0 <= i < |frames| - 1 ==> rounds[i].key != Quit
      ensures |frames| < |rounds| ==> frames != [] && rounds[|frames| - 1].key == Quit
    {
      frames := [];
      var i := 0;
      ghost var start := Now();
      while i < |rounds|
        invariant 0 <= i <= |rounds| && |frames| == i && Valid()
        invariant Played(rounds, frames, start, Now())
        invariant forall j :: 0 <= j < i ==> rounds[j].key != Quit
      {
        frames := NextRound(rounds, i, frames, start);
        if rounds[i].key == Quit {
          break;
        }
        i := i + 1;
      }
    }
  }
}
