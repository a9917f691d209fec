/** The output splitter over whole runs: the limit of the log, the live status, any chunking. */
module FeedRuns {
  import opened FeedOutput
  import opened FeedLaws

  // ------------------------------------------------------------- the limit

  function LastOf(lines: seq<string>, m: nat): seq<string> {
    if |lines| <= m then lines else lines[|lines| - m..]
  }

  // With a positive limit the log is the last m texts.
  lemma {:induction false} LastLines(lines: seq<string>, texts: seq<string>, m: int)
    requires m >= 1 && |lines| <= m
    ensures PushAll(lines, texts, m) == LastOf(lines + texts, m)
    decreases |texts|
  {
    if texts == [] {
      assert lines + texts == lines;
    } else {
      var longer := lines + [texts[0]];
      LastLines(Push(lines, texts[0], m), texts[1..], m);
      assert Push(lines, texts[0], m) == LastOf(longer, m);
      LastOfLast(longer, texts[1..], m);
      Assoc(lines, [texts[0]], texts[1..]);
      assert [texts[0]] + texts[1..] == texts;
    }
  }

  lemma LastOfLast(u: seq<string>, v: seq<string>, m: nat)
    ensures LastOf(LastOf(u, m) + v, m) == LastOf(u + v, m)
  {
    if |u| > m {
      var k := |u| - m;
      assert u == u[..k] + u[k..];
      Assoc(u[..k], u[k..], v);
    }
  }

  lemma {:induction false} PushAllConcat(lines: seq<string>, a: seq<string>, b: seq<string>, m: int)
    ensures PushAll(lines, a + b, m) == PushAll(PushAll(lines, a, m), b, m)
    decreases |a|
  {
    if a == [] {
      assert a + b == b;
    } else {
      assert (a + b)[1..] == a[1..] + b;
      PushAllConcat(Push(lines, a[0], m), a[1..], b, m);
    }
  }

  // Without a positive limit every text deletes -m lines in front, none when m is 0.
  lemma {:induction false} NoPositiveLimit(lines: seq<string>, texts: seq<string>, m: int)
    requires m <= 0
    ensures PushAll(lines, texts, m) == LastOf(lines + texts, AtLeastZero(|lines| + (1 + m) * |texts|))
    decreases |texts|
  {
    if texts == [] {
      assert lines + texts == lines;
    } else {
      var longer, rest := lines + [texts[0]], texts[1..];
      var next := Push(lines, texts[0], m);
      NoPositiveLimit(next, rest, m);
      assert lines + texts == longer + rest;
      Products(m, |rest|);
      PushWithoutLimit(longer, rest, next, m, (1 + m) * |rest|);
    }
  }

  function AtLeastZero(n: int): (r: nat)
    ensures n >= 0 ==> r == n
    ensures n < 0 ==> r == 0
  {
    if n < 0 then 0 else n
  }

  lemma Products(m: int, n: nat)
    requires m <= 0
    ensures (1 + m) * (n + 1) == (1 + m) + (1 + m) * n && (1 + m) * n <= n && (m < 0 ==> (1 + m) * n <= 0)
  {
    if m < 0 {
      NotPositive(1 + m, n);
    }
  }

  lemma NotPositive(a: int, n: nat)
    requires a <= 0
    ensures a * n <= 0
  {
  }

  lemma PushWithoutLimit(longer: seq<string>, rest: seq<string>, next: seq<string>, m: int, x: int)
    requires m <= 0 && x <= |rest| && (m < 0 ==> x <= 0) && longer != [] && next == DeleteHead(longer, m)
    ensures LastOf(next + rest, AtLeastZero(|next| + x)) == LastOf(longer + rest, AtLeastZero(|longer| + m + x))
  {
    if -m <= |longer| {
      assert next == longer[-m..];
      assert next + rest == (longer + rest)[-m..];
      LastOfSuffix(longer + rest, -m, AtLeastZero(|next| + x));
    }
  }

  lemma LastOfSuffix(s: seq<string>, k: nat, n: nat)
    requires k + n <= |s|
    ensures LastOf(s[k..], n) == LastOf(s, n)
  {
  }

  // The limit bounds the log exactly when it is positive: `del lines[:-0]` deletes nothing.
  lemma LimitHoldsExactly(m: int)
    ensures (forall texts :: |PushAll([], texts, m)| <= m) <==> m >= 1
  {
    if m >= 1 {
      forall texts
        ensures |PushAll([], texts, m)| <= m
      {
        LastLines([], texts, m);
      }
    } else {
      assert PushAll([], [""], m) == Push([], "", m) by {
        assert [""][1..] == [];
      }
      if m == 0 {
        assert |PushAll([], [""], m)| == 1;
      }
    }
  }

  // ------------------------------------------------------------ whole runs

  // Feeding chunks in order, from an empty start.
  function PendingAfter(chunks: seq<string>): string {
    if chunks == [] then "" else Kept(PendingAfter(chunks[..|chunks| - 1]), chunks[|chunks| - 1])
  }

  function AllTexts(ops: TextOps, chunks: seq<string>): seq<string> {
    if chunks == [] then []
    else
      var before := chunks[..|chunks| - 1];
      AllTexts(ops, before) + Texts(ops, PendingAfter(before), chunks[|chunks| - 1])
  }

  function LinesAfter(ops: TextOps, chunks: seq<string>, m: int): seq<string> {
    if chunks == [] then []
    else
      var before := chunks[..|chunks| - 1];
      PushAll(LinesAfter(ops, before, m), Texts(ops, PendingAfter(before), chunks[|chunks| - 1]), m)
  }

  // Over every run: the kept text holds no carriage return, and the log is the
  // last m of all texts ever logged.
  lemma {:induction false} EveryRun(ops: TextOps, chunks: seq<string>, m: int)
    requires m >= 1
    ensures '\r' !in PendingAfter(chunks)
    ensures LinesAfter(ops, chunks, m) == LastOf(AllTexts(ops, chunks), m)
    decreases |chunks|
  {
    AllPushed(ops, chunks, m);
    LastLines([], AllTexts(ops, chunks), m);
    if chunks == [] {
    } else {
      var before := chunks[..|chunks| - 1];
      var lost := SplitIsPartition(PendingAfter(before) + Normalize(chunks[|chunks| - 1]));
    }
    assert [] + AllTexts(ops, chunks) == AllTexts(ops, chunks);
  }

  lemma {:induction false} AllPushed(ops: TextOps, chunks: seq<string>, m: int)
    ensures LinesAfter(ops, chunks, m) == PushAll([], AllTexts(ops, chunks), m)
    decreases |chunks|
  {
    if chunks == [] {
    } else {
      var before := chunks[..|chunks| - 1];
      AllPushed(ops, before, m);
      PushAllConcat([], AllTexts(ops, before), Texts(ops, PendingAfter(before), chunks[|chunks| - 1]), m);
    }
  }

  function Concat(chunks: seq<string>): string {
    if chunks == [] then "" else Concat(chunks[..|chunks| - 1]) + chunks[|chunks| - 1]
  }

  // After these chunks, the kept text and the texts logged are those of one call.
  ghost predicate Unseen(ops: TextOps, chunks: seq<string>) {
    PendingAfter(chunks) == Kept("", Concat(chunks)) && AllTexts(ops, chunks) == Texts(ops, "", Concat(chunks))
  }

  // The boundary before chunk k, by the stream up to it and the chunk.
  ghost predicate HiddenAt(ops: TextOps, chunks: seq<string>, k: nat)
    requires k < |chunks|
  {
    SplitHidden(ops, "", Concat(chunks[..k]), chunks[k])
  }

  // One more chunk, after k chunks that do not show.
  lemma OneMoreChunk(ops: TextOps, chunks: seq<string>, k: nat)
    requires k < |chunks| && Unseen(ops, chunks[..k])
    ensures Unseen(ops, chunks[..k + 1]) <==> HiddenAt(ops, chunks, k)
  {
    assert chunks[..k + 1][..k] == chunks[..k];
    IndependentExactly(ops, "", Concat(chunks[..k]), chunks[k]);
    IndependentMeans(ops, "", Concat(chunks[..k]), chunks[k]);
  }

  lemma NothingBeforeFirst(ops: TextOps, chunks: seq<string>)
    ensures Unseen(ops, chunks[..0])
    ensures chunks != [] ==> HiddenAt(ops, chunks, 0)
  {
  }

  lemma {:induction false} Chain(n: nat, p: nat -> bool, q: nat -> bool)
    requires p(0) && forall k: nat :: k < n && p(k) ==> (p(k + 1) <==> q(k))
    ensures (forall k: nat :: k <= n ==> p(k)) <==> (forall k: nat :: k < n ==> q(k))
  {
    if n == 0 {
    } else {
      Chain(n - 1, p, q);
      if forall k: nat :: k < n ==> q(k) {
        assert q(n - 1);
        assert p(n - 1);
      }
      if forall k: nat :: k <= n ==> p(k) {
        assert p(n - 1) && p(n);
      }
    }
  }

  // A stream in any chunks: no point of the run shows that it was cut, exactly when
  // every boundary so far is hidden.
  lemma ChunkingExactly(ops: TextOps, chunks: seq<string>)
    ensures (forall k :: 0 <= k <= |chunks| ==> Unseen(ops, chunks[..k]))
       <==> (forall k :: 0 < k < |chunks| ==> HiddenAt(ops, chunks, k))
  {
    var p: nat -> bool := k => 0 <= k <= |chunks| && Unseen(ops, chunks[..k]);
    var q: nat -> bool := k => 0 <= k < |chunks| && HiddenAt(ops, chunks, k);
    NothingBeforeFirst(ops, chunks);
    forall k: nat | k < |chunks| && p(k)
      ensures p(k + 1) <==> q(k)
    {
      OneMoreChunk(ops, chunks, k);
    }
    Chain(|chunks|, p, q);
    assert forall k: nat :: k <= |chunks| ==> (p(k) <==> Unseen(ops, chunks[..k]));
    assert forall k: nat :: k < |chunks| ==> (q(k) <==> HiddenAt(ops, chunks, k));
  }

  // Then the log is that of the whole stream, for any limit.
  lemma AnyChunking(ops: TextOps, chunks: seq<string>, m: int)
    requires forall k :: 0 < k < |chunks| ==> HiddenAt(ops, chunks, k)
    ensures Unseen(ops, chunks)
    ensures LinesAfter(ops, chunks, m) == PushAll([], Texts(ops, "", Concat(chunks)), m)
  {
    ChunkingExactly(ops, chunks);
    AllPushed(ops, chunks, m);
    assert chunks[..|chunks|] == chunks;
  }

  // Chunks whose carriage returns all stand in CR LF pairs inside them hide every boundary.
  lemma WholePairsAreHidden(ops: TextOps, chunks: seq<string>)
    requires forall i :: 0 <= i < |chunks| ==> '\r' !in Normalize(chunks[i])
    ensures forall k :: 0 < k < |chunks| ==> HiddenAt(ops, chunks, k)
  {
    forall k | 0 < k < |chunks|
      ensures HiddenAt(ops, chunks, k)
    {
      WholePairs(chunks, k);
      BoundaryAfterPairs(ops, Concat(chunks[..k]), chunks[k]);
    }
  }

  lemma {:induction false} WholePairs(chunks: seq<string>, k: nat)
    requires k <= |chunks| && forall i :: 0 <= i < k ==> '\r' !in Normalize(chunks[i])
    ensures '\r' !in Normalize(Concat(chunks[..k]))
  {
    if k == 0 {
    } else {
      WholePairs(chunks, k - 1);
      assert chunks[..k][..k - 1] == chunks[..k - 1];
      var c := Concat(chunks[..k - 1]);
      if c != [] && c[|c| - 1] == '\r' {
        NormalizeKeepsLastCr(c);
      }
      NormalizeAppend(c, chunks[k - 1]);
    }
  }

  lemma BoundaryAfterPairs(ops: TextOps, a: string, b: string)
    requires '\r' !in Normalize(a)
    ensures SplitHidden(ops, "", a, b)
  {
    if a != [] && a[|a| - 1] == '\r' {
      NormalizeKeepsLastCr(a);
    }
  }

  // A cut inside such a pair shows, when its line is logged and empty lines are not.
  lemma CutInsidePairShows(ops: TextOps, line: string)
    requires Clean(line) && LogText(ops, line) != [] && LogText(ops, "") == []
    ensures var chunks := [line + ['\r'], ['\n']]; '\r' !in Normalize(Concat(chunks)) && !Unseen(ops, chunks)
  {
    var a, b := line + ['\r'], ['\n'];
    TwoChunks(ops, a, b);
    CutLosesLine(ops, line);
    NormalizeStraddled(line, "");
    NormalizeClean(line);
    assert b + "" == b;
  }

  lemma TwoChunks(ops: TextOps, a: string, b: string)
    ensures Concat([a, b]) == a + b
    ensures AllTexts(ops, [a, b]) == Texts(ops, "", a) + Texts(ops, Kept("", a), b)
  {
    assert [a, b][..1] == [a] && [a][..0] == [];
    assert Concat([a]) == "" + a == a;
    assert AllTexts(ops, [a]) == [] + Texts(ops, "", a) == Texts(ops, "", a);
  }

  // The texts of progress lines; the live status after some lines is the last of them.
  function ProgressTexts(ops: TextOps, raws: seq<string>): seq<string> {
    if raws == [] then []
    else
      var text := ops.logText(raws[0]);
      (if text != "" && ops.isProgress(text) then [text] else []) + ProgressTexts(ops, raws[1..])
  }

  lemma {:induction false} LiveIsLastProgress(ops: TextOps, raws: seq<string>, live: string)
    ensures var p := ProgressTexts(ops, raws);
            LiveAfter(ops, raws, live) == if p == [] then live else p[|p| - 1]
  {
    if raws == [] {
    } else {
      var text := ops.logText(raws[0]);
      LiveIsLastProgress(ops, raws[1..], if text != "" && ops.isProgress(text) then text else live);
    }
  }

  // Which lines are logged: those whose text is not empty and no progress line, in order.
  lemma {:induction false} LoggedLines(ops: TextOps, raws: seq<string>) returns (at: seq<nat>)
    ensures |at| == |LogTexts(ops, raws)| && forall j, k :: 0 <= j < k < |at| ==> at[j] < at[k]
    ensures forall k :: 0 <= k < |at| ==> at[k] < |raws| && LogTexts(ops, raws)[k] == ops.logText(raws[at[k]])
    ensures forall i :: 0 <= i < |raws| ==>
              (i in at <==> ops.logText(raws[i]) != "" && !ops.isProgress(ops.logText(raws[i])))
  {
    if raws == [] {
      at := [];
    } else {
      var n := |raws| - 1;
      var init, last := raws[..n], raws[n];
      at := LoggedLines(ops, init);
      assert raws == init + [last];
      LogTextsConcat(ops, init, [last]);
      FirstText(ops, last, []);
      assert [last] + [] == [last];
      if ops.logText(last) != "" && !ops.isProgress(ops.logText(last)) {
        at := at + [n];
      }
    }
  }

  lemma {:induction false} LiveAfterConcat(ops: TextOps, a: seq<string>, b: seq<string>, live: string)
    ensures LiveAfter(ops, a + b, live) == LiveAfter(ops, b, LiveAfter(ops, a, live))
    decreases |a|
  {
    if a == [] {
      assert a + b == b;
    } else {
      var text := ops.logText(a[0]);
      assert (a + b)[1..] == a[1..] + b;
      LiveAfterConcat(ops, a[1..], b, if text != "" && ops.isProgress(text) then text else live);
    }
  }

  // The live status after some lines: the text of the last progress line, if there is one.
  lemma {:induction false} LastProgress(ops: TextOps, raws: seq<string>, live: string) returns (i: int)
    ensures -1 <= i < |raws|
    ensures forall j :: i < j < |raws| ==> ops.logText(raws[j]) == "" || !ops.isProgress(ops.logText(raws[j]))
    ensures i == -1 ==> LiveAfter(ops, raws, live) == live
    ensures i >= 0 ==> ops.logText(raws[i]) != "" && ops.isProgress(ops.logText(raws[i]))
    ensures i >= 0 ==> LiveAfter(ops, raws, live) == ops.logText(raws[i])
  {
    if raws == [] {
      i := -1;
    } else {
      var n := |raws| - 1;
      var init, last := raws[..n], raws[n];
      assert raws == init + [last];
      LiveAfterConcat(ops, init, [last], live);
      if ops.logText(last) != "" && ops.isProgress(ops.logText(last)) {
        i := n;
      } else {
        i := LastProgress(ops, init, live);
        assert forall j :: 0 <= j < n ==> raws[j] == init[j];
      }
    }
  }

  lemma {:induction false} SawCrByInput(s: string)
    ensures SplitText(s).sawCr <==> '\r' in s
    decreases |s|
  {
    if Clean(s) {
      SplitNothing(s);
    } else {
      var head, c, rest := Cut(s);
      if c == '\n' {
        SawCrByInput(rest);
        SplitLine(head, rest);
      } else {
        SplitCr(head, rest);
      }
    }
  }

  // The live status a call returns, by the text it holds.  After a carriage return it is
  // whatever follows the last one; otherwise the unfinished line, if that is a progress
  // line; and failing that, the last progress line completed, or the status before.
  lemma LiveByInput(ops: TextOps, s: string, live: string)
    ensures var base := LiveAfter(ops, EndedLines(BeforeCr(s)), live);
            var after, line := ops.statusText(AfterLast(s, '\r')), AfterLast(s, '\n');
            LiveRest(ops, SplitText(s), LiveAfter(ops, SplitText(s).raws, live)) ==
            if '\r' in s then (if after != "" then after else base)
            else if line != "" && ops.statusText(line) != "" && ops.isProgress(ops.statusText(line))
            then ops.statusText(line)
            else base
  {
    RawsByInput(s);
    SawCrByInput(s);
    if '\r' in s {
      SplitStopsAtCr(s, "");
    } else {
      RestByInput(s);
    }
  }

  // The live status over a run, from an empty start.
  function LiveOver(ops: TextOps, chunks: seq<string>): string {
    if chunks == [] then ""
    else
      var before := chunks[..|chunks| - 1];
      var r := SplitText(PendingAfter(before) + Normalize(chunks[|chunks| - 1]));
      LiveRest(ops, r, LiveAfter(ops, r.raws, LiveOver(ops, before)))
  }

  const MODAL_LINES: int := 500

  // The reading loop of _play_one_modal: what it has logged after any reads.
  method PlayOutput(ops: TextOps, chunks: seq<string>) returns (log: OutputLog, pending: string, live: string)
    ensures fresh(log)
    ensures log.lines == if |AllTexts(ops, chunks)| <= 500 then AllTexts(ops, chunks)
                         else AllTexts(ops, chunks)[|AllTexts(ops, chunks)| - 500..]
    ensures pending == PendingAfter(chunks) && '\r' !in pending
    ensures live == LiveOver(ops, chunks)
  {
    log := new OutputLog();
    pending, live := "", "";
    for k := 0 to |chunks|
      invariant fresh(log)
      invariant log.lines == LinesAfter(ops, chunks[..k], MODAL_LINES) && pending == PendingAfter(chunks[..k])
      invariant live == LiveOver(ops, chunks[..k])
    {
      assert chunks[..k + 1][..k] == chunks[..k];
      pending, live := log.FeedOutput(ops, pending, chunks[k], MODAL_LINES, live);
    }
    assert chunks[..|chunks|] == chunks;
    EveryRun(ops, chunks, MODAL_LINES);
  }
}
