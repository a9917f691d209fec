/** The laws of the output splitter: what it keeps, what it loses, and when chunking shows. */
module FeedLaws {
  import opened FeedOutput

  // ------------------------------------------------- SplitText, by structure

  predicate Clean(s: string) {
    '\n' !in s && '\r' !in s
  }

  lemma FindUnique(s: string, c: char, head: string, rest: string)
    requires s == head + [c] + rest && c !in head
    ensures Find(s, c) == |head|
  {
    assert s[..|head|] == head && s[|head|] == c;
  }

  lemma FindLater(s: string, c: char, head: string, rest: string)
    requires s == head + rest && c !in head
    ensures Find(s, c) == -1 || Find(s, c) >= |head|
  {
    assert s[..|head|] == head;
  }

  lemma SplitNothing(s: string)
    requires Clean(s)
    ensures SplitText(s) == Split([], s, false)
  {
  }

  lemma SplitLine(line: string, rest: string)
    requires Clean(line)
    ensures var r := SplitText(rest);
            SplitText(line + ['\n'] + rest) == r.(raws := [line] + r.raws)
  {
    var s := line + ['\n'] + rest;
    FindUnique(s, '\n', line, rest);
    FindLater(s, '\r', line, ['\n'] + rest);
    assert s == line + (['\n'] + rest);
    assert s[..|line|] == line && s[|line| + 1..] == rest;
    assert s[|line|] == '\n';
  }

  lemma SplitCr(head: string, rest: string)
    requires Clean(head)
    ensures var s := head + ['\r'] + rest;
            SplitText(s) == Split([], AfterLast(s, '\r'), true)
  {
    var s := head + ['\r'] + rest;
    FindUnique(s, '\r', head, rest);
    assert s == head + (['\r'] + rest);
    FindLater(s, '\n', head, ['\r'] + rest);
    assert s[|head|] == '\r';
  }

  // Text up to the first line feed or carriage return.
  lemma Cut(s: string) returns (head: string, c: char, rest: string)
    requires !Clean(s)
    ensures s == head + [c] + rest && Clean(head) && (c == '\n' || c == '\r')
  {
    var nl, cr := Find(s, '\n'), Find(s, '\r');
    var i := if nl == -1 || (cr != -1 && cr < nl) then cr else nl;
    head, c, rest := s[..i], s[i], s[i + 1..];
    assert nl != -1 ==> head == s[..nl][..i];
    assert cr != -1 ==> head == s[..cr][..i];
  }

  lemma AfterLastUnique(s: string, c: char, x: string, r: string)
    requires s == x + [c] + r && c !in r
    ensures AfterLast(s, c) == r
  {
    assert s[|x|] == c && s[|x| + 1..] == r;
    assert s[|s| - |AfterLast(s, c)|..] == AfterLast(s, c);
  }

  lemma AfterLastCut(s: string, c: char) returns (x: string)
    requires c in s
    ensures s == x + [c] + AfterLast(s, c)
  {
    x := s[..|s| - |AfterLast(s, c)| - 1];
  }

  lemma AfterLastSecond(s: string, y: string, c: char)
    requires c in y
    ensures AfterLast(s + y, c) == AfterLast(y, c)
  {
    var x := AfterLastCut(y, c);
    var r := AfterLast(y, c);
    Assoc(s, x + [c], r);
    Assoc(s, x, [c]);
    AfterLastUnique(s + y, c, s + x, r);
  }

  lemma AfterLastFirst(s: string, y: string, c: char)
    requires c in s && c !in y
    ensures AfterLast(s + y, c) == AfterLast(s, c) + y
  {
    var x := AfterLastCut(s, c);
    var r := AfterLast(s, c);
    Assoc(x + [c], r, y);
    AfterLastUnique(s + y, c, x, r + y);
  }

  lemma Assoc<T>(a: seq<T>, b: seq<T>, c: seq<T>)
    ensures (a + b) + c == a + (b + c)
  {
  }

  // ----------------------------------------------------------- one call

  function Unlines(raws: seq<string>): string {
    if raws == [] then [] else raws[0] + ['\n'] + Unlines(raws[1..])
  }

  // Independent reading of a call: the text is complete lines, then a stretch
  // `lost`, then the rest.  Without a carriage return nothing is lost; with one,
  // everything from the start of the line it is in to the last carriage return.
  ghost predicate Splits(s: string, r: Split, lost: string) {
    && s == Unlines(r.raws) + lost + r.rest
    && (forall i :: 0 <= i < |r.raws| ==> Clean(r.raws[i]))
    && '\r' !in r.rest
    && (if r.sawCr
        then lost != [] && lost[|lost| - 1] == '\r' && '\n' !in lost[..Find(lost, '\r') + 1]
        else lost == [] && '\n' !in r.rest)
  }

  lemma {:induction false} SplitIsPartition(s: string) returns (lost: string)
    ensures Splits(s, SplitText(s), lost)
    decreases |s|
  {
    if Clean(s) {
      SplitNothing(s);
      lost := [];
    } else {
      var head, c, rest := Cut(s);
      if c == '\n' {
        SplitLine(head, rest);
        lost := SplitIsPartition(rest);
        OneMoreLine(head, rest, SplitText(rest), lost);
      } else {
        lost := StopAtCr(s, head, rest);
      }
    }
  }

  lemma OneMoreLine(head: string, rest: string, r: Split, lost: string)
    requires Clean(head) && Splits(rest, r, lost)
    ensures Splits(head + ['\n'] + rest, r.(raws := [head] + r.raws), lost)
  {
    assert ([head] + r.raws)[1..] == r.raws;
    Assoc(head + ['\n'], Unlines(r.raws) + lost, r.rest);
    Assoc(head + ['\n'], Unlines(r.raws), lost);
  }

  lemma StopAtCr(s: string, head: string, rest: string) returns (lost: string)
    requires s == head + ['\r'] + rest && Clean(head)
    ensures Splits(s, SplitText(s), lost)
  {
    SplitCr(head, rest);
    var x := AfterLastCut(s, '\r');
    lost := x + ['\r'];
    LostStartsClean(s, head, rest, x, AfterLast(s, '\r'));
    assert Unlines([]) + lost == lost;
  }

  lemma LostStartsClean(s: string, head: string, rest: string, x: string, r: string)
    requires s == head + ['\r'] + rest && Clean(head) && s == x + ['\r'] + r && '\r' !in r
    ensures var lost := x + ['\r']; '\r' in lost && '\n' !in lost[..Find(lost, '\r') + 1]
  {
    var lost := x + ['\r'];
    assert s[|head|] == '\r' && s[|x|] == '\r';
    assert |head| <= |x| by {
      assert s[|x| + 1..] == r;
    }
    assert lost == s[..|lost|] && lost[|head|] == '\r';
    assert lost == head + ['\r'] + lost[|head| + 1..];
    FindUnique(lost, '\r', head, lost[|head| + 1..]);
    assert lost[..|head| + 1] == head + ['\r'];
  }

  // ---------------------------------------------------- two calls in a row

  // Text without a carriage return can be fed in two parts.
  lemma {:induction false} SplitAppend(s: string, y: string)
    requires '\r' !in s
    ensures var r := SplitText(s); var t := SplitText(r.rest + y);
            SplitText(s + y) == t.(raws := r.raws + t.raws)
    decreases |s|
  {
    if Clean(s) {
      SplitNothing(s);
    } else {
      var head, c, rest := Cut(s);
      assert c == '\n' && '\r' !in rest;
      SplitAppend(rest, y);
      SplitLine(head, rest);
      SplitLine(head, rest + y);
      Assoc(head + [c], rest, y);
      Assoc([head], SplitText(rest).raws, SplitText(SplitText(rest).rest + y).raws);
    }
  }

  // A call stops at the first carriage return, whatever follows it.
  lemma {:induction false} SplitStopsAtCr(s: string, y: string)
    requires '\r' in s
    ensures SplitText(s + y) == Split(SplitText(s).raws, AfterLast(s + y, '\r'), true)
    ensures SplitText(s).rest == AfterLast(s, '\r')
    decreases |s|
  {
    var head, c, rest := Cut(s);
    Assoc(head + [c], rest, y);
    if c == '\n' {
      assert '\r' in rest;
      SplitStopsAtCr(rest, y);
      SplitLine(head, rest);
      SplitLine(head, rest + y);
      AfterLastSecond(head + ['\n'], rest, '\r');
      AfterLastSecond(head + ['\n'], rest + y, '\r');
    } else {
      SplitCr(head, rest);
      SplitCr(head, rest + y);
    }
  }

  lemma NormalizeCons(c: char, s: string)
    requires !(c == '\r' && s != [] && s[0] == '\n')
    ensures Normalize([c] + s) == [c] + Normalize(s)
  {
    assert ([c] + s)[1..] == s;
  }

  lemma NormalizePair(s: string)
    ensures Normalize(['\r', '\n'] + s) == ['\n'] + Normalize(s)
  {
    assert (['\r', '\n'] + s)[2..] == s;
  }

  // Normalizing commutes with appending, unless it would join a CR LF.
  lemma {:induction false} NormalizeAppend(a: string, b: string)
    requires !(a != [] && b != [] && a[|a| - 1] == '\r' && b[0] == '\n')
    ensures Normalize(a + b) == Normalize(a) + Normalize(b)
    decreases |a|
  {
    if a == [] {
      assert a + b == b;
    } else if |a| >= 2 && a[0] == '\r' && a[1] == '\n' {
      var y := a[2..];
      NormalizeAppend(y, b);
      assert a == ['\r', '\n'] + y;
      Assoc(['\r', '\n'], y, b);
      NormalizePair(y);
      NormalizePair(y + b);
      Assoc(['\n'], Normalize(y), Normalize(b));
    } else {
      var c, y := a[0], a[1..];
      NormalizeAppend(y, b);
      assert a == [c] + y;
      Assoc([c], y, b);
      assert y + b != [] ==> (y + b)[0] == if y == [] then b[0] else y[0];
      NormalizeCons(c, y);
      NormalizeCons(c, y + b);
      Assoc([c], Normalize(y), Normalize(b));
    }
  }

  lemma {:induction false} NormalizeKeepsLastCr(a: string)
    requires a != [] && a[|a| - 1] == '\r'
    ensures '\r' in Normalize(a)
    decreases |a|
  {
    if |a| < 2 {
    } else {
      if a[0] == '\r' && a[1] == '\n' {
        NormalizeKeepsLastCr(a[2..]);
      } else {
        NormalizeKeepsLastCr(a[1..]);
      }
    }
  }

  lemma {:induction false} LogTextsConcat(ops: TextOps, a: seq<string>, b: seq<string>)
    ensures LogTexts(ops, a + b) == LogTexts(ops, a) + LogTexts(ops, b)
  {
    if a == [] {
      assert a + b == b;
    } else {
      assert (a + b)[1..] == a[1..] + b;
      LogTextsConcat(ops, a[1..], b);
    }
  }

  // What a call keeps, and the texts it logs.
  function Kept(pending: string, chunk: string): string {
    SplitText(pending + Normalize(chunk)).rest
  }

  function Texts(ops: TextOps, pending: string, chunk: string): seq<string> {
    LogTexts(ops, SplitText(pending + Normalize(chunk)).raws)
  }

  // One call on `whole` keeps and logs what a call on s, then one more on y, do.
  ghost predicate SameInTwo(ops: TextOps, whole: string, s: string, y: string) {
    var r, t := SplitText(s), SplitText(SplitText(s).rest + y);
    && SplitText(whole).rest == t.rest
    && LogTexts(ops, SplitText(whole).raws) == LogTexts(ops, r.raws) + LogTexts(ops, t.raws)
  }

  // Feeding a + b is feeding a, then b.
  ghost predicate Independent(ops: TextOps, p: string, a: string, b: string) {
    SameInTwo(ops, p + Normalize(a + b), p + Normalize(a), Normalize(b))
  }

  lemma IndependentMeans(ops: TextOps, p: string, a: string, b: string)
    ensures Independent(ops, p, a, b) <==>
            Kept(p, a + b) == Kept(Kept(p, a), b) &&
            Texts(ops, p, a + b) == Texts(ops, p, a) + Texts(ops, Kept(p, a), b)
  {
  }

  // As long as the first part leaves no carriage return, the split does not show.
  lemma ChunkingIndependent(ops: TextOps, p: string, a: string, b: string)
    requires '\r' !in p && '\r' !in Normalize(a)
    ensures Independent(ops, p, a, b)
  {
    if a != [] && a[|a| - 1] == '\r' {
      NormalizeKeepsLastCr(a);
    }
    NormalizeAppend(a, b);
    var s, y := p + Normalize(a), Normalize(b);
    assert p + Normalize(a + b) == s + y;
    SplitAppend(s, y);
    LogTextsConcat(ops, SplitText(s).raws, SplitText(Kept(p, a) + y).raws);
  }

  // -------------------------------------------- what a call does, by its input

  function BeforeCr(s: string): string {
    var cr := Find(s, '\r'); if cr == -1 then s else s[..cr]
  }

  // The pieces of s that a line feed ends.
  function EndedLines(s: string): seq<string> {
    var nl := Find(s, '\n'); if nl == -1 then [] else [s[..nl]] + EndedLines(s[nl + 1..])
  }

  // A call completes the lines ended before the first carriage return.
  lemma {:induction false} RawsByInput(s: string)
    ensures SplitText(s).raws == EndedLines(BeforeCr(s))
    decreases |s|
  {
    if Clean(s) {
      SplitNothing(s);
    } else {
      var head, c, rest := Cut(s);
      if c == '\n' {
        RawsByInput(rest);
        SplitLine(head, rest);
        BeforeCrSkips(head, rest);
        FindUnique(BeforeCr(s), '\n', head, BeforeCr(rest));
        assert BeforeCr(s)[..|head|] == head && BeforeCr(s)[|head| + 1..] == BeforeCr(rest);
      } else {
        SplitCr(head, rest);
        FindUnique(s, '\r', head, rest);
        assert BeforeCr(s) == head;
      }
    }
  }

  lemma BeforeCrSkips(head: string, rest: string)
    requires Clean(head)
    ensures BeforeCr(head + ['\n'] + rest) == head + ['\n'] + BeforeCr(rest)
  {
    var s, line := head + ['\n'] + rest, head + ['\n'];
    FindLater(s, '\r', line, rest);
    var cr := Find(rest, '\r');
    if cr != -1 {
      var x, y := rest[..cr], rest[cr + 1..];
      assert rest == x + ['\r'] + y;
      assert s == line + x + ['\r'] + y;
      FindUnique(s, '\r', line + x, y);
    } else {
      assert '\r' !in rest;
      NoCrIn(head, rest);
    }
  }

  lemma NoCrIn(head: string, rest: string)
    requires Clean(head) && '\r' !in rest
    ensures '\r' !in head + ['\n'] + rest
  {
  }

  // Without a carriage return a call keeps the text after the last line feed.
  lemma {:induction false} RestByInput(s: string)
    requires '\r' !in s
    ensures SplitText(s).rest == AfterLast(s, '\n')
    decreases |s|
  {
    if Clean(s) {
      SplitNothing(s);
      var lost := AfterLast(s, '\n');
      assert |lost| == |s|;
    } else {
      var head, c, rest := Cut(s);
      RestByInput(rest);
      SplitLine(head, rest);
      if '\n' in rest {
        AfterLastSecond(head + [c], rest, '\n');
      } else {
        AfterLastUnique(s, '\n', head, rest);
        SplitNothing(rest);
      }
    }
  }

  // No line that a call on s completes is logged.
  ghost predicate LogsNothing(ops: TextOps, s: string) {
    forall i :: 0 <= i < |EndedLines(BeforeCr(s))| ==> LogText(ops, EndedLines(BeforeCr(s))[i]) == []
  }

  lemma LogsNothingMeans(ops: TextOps, s: string)
    ensures LogTexts(ops, SplitText(s).raws) == [] <==> LogsNothing(ops, s)
  {
    RawsByInput(s);
    NoTexts(ops, SplitText(s).raws);
  }

  lemma {:induction false} NoTexts(ops: TextOps, raws: seq<string>)
    ensures LogTexts(ops, raws) == [] <==> forall i :: 0 <= i < |raws| ==> LogText(ops, raws[i]) == []
  {
    if raws == [] {
    } else {
      NoTexts(ops, raws[1..]);
      assert forall i :: 1 <= i < |raws| ==> raws[i] == raws[1..][i - 1];
    }
  }

  // ------------------------------------------------- when the split shows

  // The boundary cuts a CR LF.
  predicate CutsLineEnd(a: string, b: string) {
    a != [] && b != [] && a[|a| - 1] == '\r' && b[0] == '\n'
  }

  // Elsewhere, with s pending and fed so far, and z fed next: after a carriage
  // return the second call must log nothing and end no line that one call keeps.
  ghost predicate HiddenBetween(ops: TextOps, s: string, z: string) {
    '\r' in s ==>
      var text := AfterLast(s, '\r') + z; LogsNothing(ops, text) && ('\r' in z || '\n' !in text)
  }

  // Inside a CR LF: the second call sees an empty line where one call sees the
  // end of the unfinished line, or, after a carriage return, nothing.
  ghost predicate HiddenInLineEnd(ops: TextOps, s: string, z: string) {
    if '\r' in s then '\r' in z && LogText(ops, "") == [] && LogsNothing(ops, z)
    else LogText(ops, AfterLast(s, '\n')) == LogText(ops, "")
  }

  // What a caller can check of p, a and b before any call.
  ghost predicate SplitHidden(ops: TextOps, p: string, a: string, b: string) {
    if CutsLineEnd(a, b) then HiddenInLineEnd(ops, p + Normalize(a[..|a| - 1]), Normalize(b[1..]))
    else HiddenBetween(ops, p + Normalize(a), Normalize(b))
  }

  // For every pending text and every two chunks.
  lemma IndependentExactly(ops: TextOps, p: string, a: string, b: string)
    ensures Independent(ops, p, a, b) <==> SplitHidden(ops, p, a, b)
  {
    if CutsLineEnd(a, b) {
      var x, y := a[..|a| - 1], b[1..];
      assert a == x + ['\r'] && b == ['\n'] + y;
      NormalizeStraddled(x, y);
      Assoc(p, Normalize(x), ['\n'] + Normalize(y));
      Assoc(p, Normalize(x), ['\r']);
      SameInLineEnd(ops, p + Normalize(x), Normalize(y));
    } else {
      NormalizeAppend(a, b);
      Assoc(p, Normalize(a), Normalize(b));
      SameBetween(ops, p + Normalize(a), Normalize(b));
    }
  }

  lemma SameBetween(ops: TextOps, s: string, z: string)
    ensures SameInTwo(ops, s + z, s, z) <==> HiddenBetween(ops, s, z)
  {
    if '\r' in s {
      SplitStopsAtCr(s, z);
      SecondCallAfterCr(s, z, AfterLast(s, '\r'));
      LogsNothingMeans(ops, AfterLast(s, '\r') + z);
    } else {
      SplitAppend(s, z);
      LogTextsConcat(ops, SplitText(s).raws, SplitText(SplitText(s).rest + z).raws);
    }
  }

  lemma SameInLineEnd(ops: TextOps, s: string, z: string)
    ensures SameInTwo(ops, s + (['\n'] + z), s + ['\r'], ['\n'] + z) <==> HiddenInLineEnd(ops, s, z)
  {
    if '\r' in s {
      LineEndAfterCr(ops, s, z);
      LogsNothingMeans(ops, z);
    } else {
      RestByInput(s);
      SameInTwoStraddled(ops, s, z);
    }
  }

  // One call drops all that follows the first carriage return, up to the last one;
  // two calls see an empty line and the text after it.
  lemma LineEndAfterCr(ops: TextOps, s: string, z: string)
    requires '\r' in s
    ensures SameInTwo(ops, s + (['\n'] + z), s + ['\r'], ['\n'] + z) <==>
            '\r' in z && LogText(ops, "") == [] && LogTexts(ops, SplitText(z).raws) == []
  {
    var y := ['\n'] + z;
    SplitStopsAtCr(s, y);
    SplitStopsAtCr(s, ['\r']);
    AfterLastUnique(s + ['\r'], '\r', s, "");
    EndLine("", z);
    assert "" + y == y;
    FirstText(ops, "", SplitText(z).raws);
    NothingAdded(LogTexts(ops, SplitText(s).raws), LogText(ops, ""), LogTexts(ops, SplitText(z).raws));
    RestAfterLineEnd(s, z);
  }

  lemma NothingAdded(u: seq<string>, v: seq<string>, w: seq<string>)
    ensures u == u + (v + w) <==> v == [] && w == []
  {
    if u == u + (v + w) {
      assert |u| == |u| + (|v| + |w|);
    }
  }

  lemma RestAfterLineEnd(s: string, z: string)
    requires '\r' in s
    ensures AfterLast(s + (['\n'] + z), '\r') == SplitText(z).rest <==> '\r' in z
  {
    var y := ['\n'] + z;
    if '\r' in z {
      AfterLastSecond(s, y, '\r');
      AfterLastSecond(['\n'], z, '\r');
      SplitStopsAtCr(z, []);
    } else {
      AfterLastFirst(s, y, '\r');
      var lost := SplitIsPartition(z);
    }
  }

  // A progress line, then a CR LF cut in two: one call keeps both lines as one
  // text, two calls lose the first, whatever is logged.
  lemma CutAfterProgress(ops: TextOps)
    ensures !Independent(ops, "", "a\rb\r", "\nc")
  {
    var a, b := "a\rb\r", "\nc";
    IndependentExactly(ops, "", a, b);
    assert a[..3] == "a\rb" && b[1..] == "c";
    assert Normalize("\rb") == "\rb";
    var s := "" + Normalize("a\rb");
    assert s[1] == '\r';
  }

  lemma {:induction false} NormalizeClean(s: string)
    requires Clean(s)
    ensures Normalize(s) == s
  {
    if |s| < 2 {
    } else {
      NormalizeClean(s[1..]);
    }
  }

  // A logged line is lost when its CR LF is cut in two.
  lemma CutLosesLine(ops: TextOps, line: string)
    requires Clean(line) && LogText(ops, line) != [] && LogText(ops, "") == []
    ensures Texts(ops, "", (line + ['\r']) + ['\n']) == LogText(ops, line)
    ensures Texts(ops, "", line + ['\r']) + Texts(ops, Kept("", line + ['\r']), ['\n']) == []
  {
    NormalizeStraddled(line, "");
    NormalizeClean(line);
    SplitNothing("");
    EndLine(line, "");
    EndCr(line);
    EndLine("", "");
    FirstText(ops, line, []);
    FirstText(ops, "", []);
    assert ['\n'] + "" == ['\n'] == "" + ['\n'];
    assert "" + (line + (['\n'] + "")) == line + (['\n'] + "");
    assert "" + (line + ['\r']) == line + ['\r'];
  }

  lemma SecondCallAfterCr(s: string, y: string, tail: string)
    requires '\r' in s && tail == AfterLast(s, '\r')
    ensures AfterLast(s + y, '\r') == SplitText(tail + y).rest <==> '\r' in y || '\n' !in tail + y
  {
    if '\r' in y {
      AfterLastSecond(s, y, '\r');
      AfterLastSecond(tail, y, '\r');
      SplitStopsAtCr(tail + y, []);
    } else {
      AfterLastFirst(s, y, '\r');
      var lost := SplitIsPartition(tail + y);
      if '\n' !in tail + y {
        SplitNothing(tail + y);
      }
    }
  }

  lemma SameInTwoStraddled(ops: TextOps, s: string, z: string)
    requires '\r' !in s
    ensures SplitText(s + (['\n'] + z)).rest == SplitText(SplitText(s + ['\r']).rest + (['\n'] + z)).rest
    ensures SameInTwo(ops, s + (['\n'] + z), s + ['\r'], ['\n'] + z) <==>
            LogText(ops, SplitText(s).rest) == LogText(ops, "")
  {
    WholeStraddled(s, z);
    FirstStraddled(s);
    EndLine("", z);
    StraddledTexts(ops, SplitText(s).raws, SplitText(s).rest, SplitText(z).raws);
  }

  lemma NormalizeStraddled(x: string, y: string)
    ensures Normalize((x + ['\r']) + (['\n'] + y)) == Normalize(x) + (['\n'] + Normalize(y))
    ensures Normalize(x + ['\r']) == Normalize(x) + ['\r']
    ensures Normalize(['\n'] + y) == ['\n'] + Normalize(y)
  {
    var end := ['\r', '\n'] + y;
    assert end[2..] == y && (['\n'] + y)[1..] == y;
    assert (x + ['\r']) + (['\n'] + y) == x + end;
    NormalizeAppend(x, end);
    NormalizeAppend(x, ['\r']);
  }

  lemma CleanRest(s: string)
    requires '\r' !in s
    ensures Clean(SplitText(s).rest)
  {
    var lost := SplitIsPartition(s);
  }

  lemma WholeStraddled(s: string, z: string)
    requires '\r' !in s
    ensures var r, t := SplitText(s), SplitText(z);
            SplitText(s + (['\n'] + z)) == t.(raws := r.raws + ([r.rest] + t.raws))
  {
    CleanRest(s);
    SplitAppend(s, ['\n'] + z);
    EndLine(SplitText(s).rest, z);
  }

  lemma FirstStraddled(s: string)
    requires '\r' !in s
    ensures SplitText(s + ['\r']) == Split(SplitText(s).raws, "", true)
  {
    CleanRest(s);
    SplitAppend(s, ['\r']);
    EndCr(SplitText(s).rest);
    assert SplitText(s).raws + [] == SplitText(s).raws;
  }

  lemma EndLine(line: string, z: string)
    requires Clean(line)
    ensures SplitText(line + (['\n'] + z)) == SplitText(z).(raws := [line] + SplitText(z).raws)
  {
    SplitLine(line, z);
    Assoc(line, ['\n'], z);
  }

  lemma EndCr(line: string)
    requires Clean(line)
    ensures SplitText(line + ['\r']) == Split([], "", true)
  {
    var s := line + ['\r'];
    assert s == s + "";
    SplitCr(line, "");
    AfterLastUnique(s, '\r', line, "");
  }

  lemma StraddledTexts(ops: TextOps, a: seq<string>, line: string, b: seq<string>)
    ensures LogTexts(ops, a + ([line] + b)) == LogTexts(ops, a) + LogTexts(ops, [""] + b)
       <==> LogText(ops, line) == LogText(ops, "")
  {
    LogTextsConcat(ops, a, [line] + b);
    assert ([line] + b)[1..] == b && ([""] + b)[1..] == b;
    var u, v, w, z := LogTexts(ops, a), LogText(ops, line), LogText(ops, ""), LogTexts(ops, b);
    if u + (v + z) == u + (w + z) {
      assert (u + (v + z))[|u|..] == v + z && (u + (w + z))[|u|..] == w + z;
      assert |v| == |w|;
      assert (v + z)[..|v|] == v && (w + z)[..|w|] == w;
    }
  }
}
