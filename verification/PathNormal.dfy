/** Making a path absolute and resolving its "." and ".." segments. */
module PathNormal {
  import opened Bytes
  import opened ShortName

  const TMP_SIZE: nat := 160
  const SEG_SIZE: nat := 80
  const MAX_DEPTH: nat := 32

  // ---- The specification: segments on a stack ----

  /** The length of the leading run without a slash. */
  function WordLen(s: seq<byte>): (k: nat)
    ensures k <= |s| && (forall i | 0 <= i < k :: s[i] != SLASH) && (k < |s| ==> s[k] == SLASH)
  {
    if s == [] || s[0] == SLASH then 0 else 1 + WordLen(s[1..])
  }

  /** The pieces between slashes, empty ones left out. */
  function Segments(s: seq<byte>): seq<seq<byte>>
    decreases |s|
  {
    if s == [] then []
    else if s[0] == SLASH then Segments(s[1..])
    else [s[..WordLen(s)]] + Segments(s[WordLen(s)..])
  }

  /** What is left after dropping "." and popping on "..". */
  function Stack(gs: seq<seq<byte>>): seq<seq<byte>> {
    if gs == [] then []
    else Pushed(Stack(gs[..|gs| - 1]), gs[|gs| - 1])
  }

  function Pushed(st: seq<seq<byte>>, g: seq<byte>): seq<seq<byte>> {
    if g == [PERIOD] then st
    else if g == [PERIOD, PERIOD] then (if st == [] then [] else st[..|st| - 1])
    else st + [g]
  }

  /** The segments written out as an absolute path. */
  function Path(st: seq<seq<byte>>): (r: seq<byte>)
    ensures |r| >= 1 && r[0] == SLASH
  {
    if st == [] then [SLASH]
    else if |st| == 1 then [SLASH] + st[0]
    else Path(st[..|st| - 1]) + [SLASH] + st[|st| - 1]
  }

  /** The text to normalise: an absolute path as it is, another one behind the working directory. */
  function Joined(inPath: CString, cwd: Option<CString>): seq<byte> {
    if inPath != [] && inPath[0] == SLASH then inPath
    else WithSlash(if cwd.Some? then cwd.value else [SLASH]) + inPath
  }

  function WithSlash(base: seq<byte>): seq<byte> {
    if base == [] || base[|base| - 1] != SLASH then base + [SLASH] else base
  }

  /** The bounds of the fixed buffers: 159 bytes of text, 79 a segment, 32 segments open at a time. */
  ghost predicate WithinBounds(tmp: seq<byte>) {
    && |tmp| < TMP_SIZE
    && (forall i: nat | i < |Segments(tmp)| :: |Segments(tmp)[i]| < SEG_SIZE)
    && (forall i: nat | i <= |Segments(tmp)| :: |Stack(Segments(tmp)[..i])| <= MAX_DEPTH)
  }

  // ---- Properties of the specification ----

  predicate Word(g: seq<byte>) {
    g != [] && SLASH !in g
  }

  predicate Words(gs: seq<seq<byte>>) {
    forall i | 0 <= i < |gs| :: Word(gs[i])
  }

  /** No empty, "." or ".." segment, and no slash inside one. */
  predicate Resolved(st: seq<seq<byte>>) {
    forall i | 0 <= i < |st| :: Word(st[i]) && st[i] != [PERIOD] && st[i] != [PERIOD, PERIOD]
  }

  lemma {:induction false} SegmentsAreWords(s: seq<byte>)
    ensures Words(Segments(s))
    decreases |s|
  {
    if s != [] {
      if s[0] == SLASH {
        SegmentsAreWords(s[1..]);
      } else {
        SegmentsAreWords(s[WordLen(s)..]);
      }
    }
  }

  lemma {:induction false} StackIsResolved(gs: seq<seq<byte>>)
    requires Words(gs)
    ensures Resolved(Stack(gs))
  {
    if gs != [] {
      StackIsResolved(gs[..|gs| - 1]);
    }
  }

  lemma {:induction false} StackOfResolved(st: seq<seq<byte>>)
    requires Resolved(st)
    ensures Stack(st) == st
  {
    if st != [] {
      StackOfResolved(st[..|st| - 1]);
    }
  }

  lemma {:induction false} SegmentsJoin(a: seq<byte>, b: seq<byte>)
    ensures Segments(a + [SLASH] + b) == Segments(a) + Segments(b)
    decreases |a|
  {
    hide WordLen, Segments;
    if a == [] {
      NoSegments(b);
    } else if a[0] == SLASH {
      TailOfJoin(a, b, 1);
      SegmentsAfterSlash(a + [SLASH] + b, a[1..] + [SLASH] + b);
      SegmentsAfterSlash(a, a[1..]);
      SegmentsJoin(a[1..], b);
    } else {
      WordOfJoin(a, b);
      WordFits(a);
      JoinAfterWord(a, b, WordLen(a));
    }
  }

  /** ... when `a` starts with a word of `k` bytes. */
  lemma {:induction false} JoinAfterWord(a: seq<byte>, b: seq<byte>, k: nat)
    requires a != [] && a[0] != SLASH && 0 < k <= |a| && WordLen(a) == k && WordLen(a + [SLASH] + b) == k
    ensures Segments(a + [SLASH] + b) == Segments(a) + Segments(b)
    decreases |a|, 0
  {
    hide WordLen, Segments;
    TailOfJoin(a, b, k);
    SegmentsAfterWord(a + [SLASH] + b, k, a[..k], a[k..] + [SLASH] + b);
    SegmentsAfterWord(a, k, a[..k], a[k..]);
    SegmentsJoin(a[k..], b);
    PrependJoins(a[..k], Segments(a[k..]), Segments(b));
  }

  lemma PrependJoins(g: seq<byte>, x: seq<seq<byte>>, y: seq<seq<byte>>)
    ensures [g] + (x + y) == [g] + x + y
  {
  }

  lemma NoSegments(b: seq<byte>)
    ensures Segments([] + [SLASH] + b) == Segments([]) + Segments(b)
  {
    hide WordLen;
    assert ([] + [SLASH] + b)[1..] == b;
  }

  lemma SegmentsAfterSlash(s: seq<byte>, t: seq<byte>)
    requires s != [] && s[0] == SLASH && s[1..] == t
    ensures Segments(s) == Segments(t)
  {
    hide WordLen;
  }

  lemma SegmentsAfterWord(s: seq<byte>, k: nat, g: seq<byte>, t: seq<byte>)
    requires s != [] && s[0] != SLASH && WordLen(s) == k <= |s| && s[..k] == g && s[k..] == t
    ensures Segments(s) == [g] + Segments(t)
  {
    hide WordLen;
  }

  lemma WordFits(s: seq<byte>)
    ensures WordLen(s) <= |s| && (s != [] && s[0] != SLASH ==> WordLen(s) > 0)
  {
  }

  lemma {:induction false} WordOfJoin(a: seq<byte>, b: seq<byte>)
    ensures WordLen(a + [SLASH] + b) == WordLen(a)
  {
    var s := a + [SLASH] + b;
    if a != [] && a[0] != SLASH {
      assert s[1..] == a[1..] + [SLASH] + b;
      WordOfJoin(a[1..], b);
    }
  }

  lemma WordAlone(g: seq<byte>)
    requires Word(g)
    ensures Segments(g) == [g]
  {
    assert WordLen(g) == |g|;
    assert g[..|g|] == g && g[|g|..] == [];
  }

  /** Writing segments out and splitting them again gives them back. */
  lemma {:induction false} SegmentsOfPath(st: seq<seq<byte>>)
    requires Words(st)
    ensures Segments(Path(st)) == st
  {
    if st == [] {
      assert Segments([SLASH][1..]) == [];
    } else {
      var m := |st| - 1;
      WordAlone(st[m]);
      if m == 0 {
        assert ([SLASH] + st[0])[1..] == st[0];
      } else {
        SegmentsOfPath(st[..m]);
        SegmentsJoin(Path(st[..m]), st[m]);
      }
    }
  }

  /** The result is absolute and holds no ".", ".." or empty segment, and normalising it again changes nothing. */
  lemma NormalForm(s: seq<byte>)
    ensures var r := Path(Stack(Segments(s)));
            && r[0] == SLASH && Resolved(Segments(r)) && Path(Stack(Segments(r))) == r
            && (r != [SLASH] ==> r[|r| - 1] != SLASH)
  {
    var st := Stack(Segments(s));
    SegmentsAreWords(s);
    StackIsResolved(Segments(s));
    SegmentsOfPath(st);
    StackOfResolved(st);
    if st != [] { NoTrailingSlash(st); }
  }

  lemma NoTrailingSlash(st: seq<seq<byte>>)
    requires Resolved(st) && st != []
    ensures Path(st)[|Path(st)| - 1] != SLASH
  {
    var g := st[|st| - 1];
    assert g[|g| - 1] in g;
  }

  // ---- The code ----

  /** `r` is all of `whole`, or as much as the temporary buffer takes. */
  predicate CutShort(r: seq<byte>, whole: seq<byte>) {
    r <= whole && (r == whole || |r| == TMP_SIZE - 1)
  }

  /** Copies into the temporary buffer from position `at` on, as far as it has room. */
  method Copy(tmp: seq<byte>, text: CString) returns (r: seq<byte>)
    requires |tmp| < TMP_SIZE
    ensures |r| < TMP_SIZE && (|tmp| + |text| < TMP_SIZE ==> r == tmp + text)
    ensures CutShort(r, tmp + text)
  {
    r := tmp;
    var i := 0;
    while i < |text| && |r| < TMP_SIZE - 1
      invariant 0 <= i <= |text| && |r| < TMP_SIZE && r == tmp + text[..i]
    {
      r := r + [text[i]];
      i := i + 1;
    }
    assert r == (tmp + text)[..|r|];
  }

  /** Joins the working directory and the path; exact when the result fits the buffer. */
  method JoinPath(inPath: CString, cwd: Option<CString>) returns (tmp: seq<byte>)
    ensures |Joined(inPath, cwd)| < TMP_SIZE ==> tmp == Joined(inPath, cwd)
  {
    hide CutShort, WithSlash;
    if inPath != [] && inPath[0] == SLASH {
      tmp := Copy([], inPath);
      assert [] + inPath == inPath;
      return;
    }
    tmp := CopyBase(if cwd.Some? then cwd.value else [SLASH]);
    tmp := Copy(tmp, inPath);
  }

  method CopyBase(base: CString) returns (tmp: seq<byte>)
    ensures |tmp| < TMP_SIZE && (|WithSlash(base)| < TMP_SIZE ==> tmp == WithSlash(base))
  {
    hide CutShort;
    tmp := Copy([], base);
    assert [] + base == base;
    if tmp == [] || tmp[|tmp| - 1] != SLASH {
      if |tmp| < TMP_SIZE - 1 {
        tmp := tmp + [SLASH];
      }
    }
  }

  /** Where segment `i` of the stack starts in the output. */
  function StartAt(st: seq<seq<byte>>, i: nat): nat
    requires i <= |st|
  {
    if i == 0 then 1 else |Path(st[..i])| + 1
  }

  /** The output so far: the stack written out, with a slash left over after a pop. */
  ghost predicate Shows(o: seq<byte>, st: seq<seq<byte>>) {
    o == Path(st) || (st != [] && o == Path(st) + [SLASH])
  }

  ghost predicate StartsOk(starts: seq<nat>, st: seq<seq<byte>>) {
    |st| <= |starts| && forall i: nat | i < |st| :: starts[i] == StartAt(st, i)
  }

  lemma ShowsPush(o: seq<byte>, st: seq<seq<byte>>, g: seq<byte>)
    requires Resolved(st) && Word(g) && Shows(o, st)
    ensures var o2 := if |o| > 1 && o[|o| - 1] != SLASH then o + [SLASH] else o;
            |o2| == StartAt(st + [g], |st|) && o2 + g == Path(st + [g])
  {
    assert (st + [g])[..|st|] == st;
    if st != [] { NoTrailingSlash(st); }
  }

  lemma ShowsPop(o: seq<byte>, st: seq<seq<byte>>)
    requires Shows(o, st) && st != []
    ensures var k := StartAt(st, |st| - 1); 1 <= k <= |o| && Shows(o[..k], st[..|st| - 1])
  {
    var m := |st| - 1;
    var init := st[..m];
    if m > 0 {
      assert Path(st) == Path(init) + [SLASH] + st[m];
      assert o[..|Path(init)| + 1] == Path(init) + [SLASH];
    }
  }

  lemma StartsPush(starts: seq<nat>, st: seq<seq<byte>>, g: seq<byte>, at: nat)
    requires StartsOk(starts, st) && |st| < |starts| && at == StartAt(st + [g], |st|)
    ensures StartsOk(starts[|st| := at], st + [g])
  {
    assert forall i: nat | i <= |st| :: (st + [g])[..i] == st[..i];
  }

  lemma StartsPop(starts: seq<nat>, st: seq<seq<byte>>)
    requires StartsOk(starts, st) && st != []
    ensures StartsOk(starts, st[..|st| - 1])
  {
    var m := |st| - 1;
    assert forall i: nat | i <= m :: st[..m][..i] == st[..i];
  }

  lemma FinalTrim(o: seq<byte>, st: seq<seq<byte>>)
    requires Resolved(st) && Shows(o, st)
    ensures (if |o| > 1 && o[|o| - 1] == SLASH then o[..|o| - 1] else o) == Path(st)
  {
    if st != [] { NoTrailingSlash(st); }
  }

  /** The scan has consumed `done`, with `rest` of the text to go. */
  ghost predicate Scanned(tmp: seq<byte>, done: seq<seq<byte>>, pos: nat) {
    pos <= |tmp| && Segments(tmp) == done + Segments(tmp[pos..])
  }

  /** Takes one more segment off the text. */
  lemma ScanSegment(tmp: seq<byte>, done: seq<seq<byte>>, pos: nat, k: nat)
    requires Scanned(tmp, done, pos) && pos < |tmp| && tmp[pos] != SLASH && k == WordLen(tmp[pos..])
    ensures pos + k <= |tmp| && Word(tmp[pos..pos + k]) && Scanned(tmp, done + [tmp[pos..pos + k]], pos + k)
    ensures |done| < |Segments(tmp)| && Segments(tmp)[|done|] == tmp[pos..pos + k]
    ensures Segments(tmp)[..|done|] == done && Segments(tmp)[..|done| + 1] == done + [tmp[pos..pos + k]]
  {
    hide WordLen, Segments;
    var rest := tmp[pos..];
    WordFits(rest);
    var g := tmp[pos..pos + k];
    assert rest[..k] == g && rest[k..] == tmp[pos + k..] && rest[0] == tmp[pos];
    SegmentsAfterWord(rest, k, g, tmp[pos + k..]);
    assert Word(g);
    assert Segments(tmp) == done + ([g] + Segments(tmp[pos + k..]));
    assert done + ([g] + Segments(tmp[pos + k..])) == done + [g] + Segments(tmp[pos + k..]);
  }

  lemma SkipSlash(tmp: seq<byte>, done: seq<seq<byte>>, pos: nat)
    requires Scanned(tmp, done, pos) && pos < |tmp| && tmp[pos] == SLASH
    ensures Scanned(tmp, done, pos + 1)
  {
    assert tmp[pos..][1..] == tmp[pos + 1..];
  }

  /** One segment, read up to the next slash or the end of its buffer. */
  method ReadSegment(tmp: seq<byte>, pos: nat) returns (seg: seq<byte>, pos2: nat)
    requires pos < |tmp| && WordLen(tmp[pos..]) < SEG_SIZE
    ensures pos2 == pos + WordLen(tmp[pos..]) && pos2 <= |tmp| && seg == tmp[pos..pos2]
  {
    pos2, seg := pos, [];
    while pos2 < |tmp| && tmp[pos2] != SLASH && |seg| < SEG_SIZE - 1
      invariant pos <= pos2 <= |tmp| && seg == tmp[pos..pos2] && pos2 <= pos + WordLen(tmp[pos..])
    {
      assert tmp[pos..][pos2 - pos] == tmp[pos2];
      seg := seg + [tmp[pos2]];
      pos2 := pos2 + 1;
    }
    assert pos2 < |tmp| ==> tmp[pos..][pos2 - pos] == tmp[pos2];
  }

  /** One byte more of output than input when the text lacks its leading slash. */
  function Lead(tmp: seq<byte>): nat {
    if tmp != [] && tmp[0] == SLASH then 0 else 1
  }

  /** What the scan knows between two segments; `o` is the output so far. */
  ghost predicate Between(tmp: seq<byte>, done: seq<seq<byte>>, pos: nat, o: seq<byte>, starts: seq<nat>, depth: nat) {
    && Scanned(tmp, done, pos) && (done != [] ==> pos == |tmp| || tmp[pos] == SLASH)
    && Words(done) && depth == |Stack(done)| && Shows(o, Stack(done)) && StartsOk(starts, Stack(done))
    && ((pos == 0 && |o| == 1) || |o| <= pos + Lead(tmp))
  }

  lemma StartScan(tmp: seq<byte>, starts: seq<nat>)
    ensures Between(tmp, [], 0, [SLASH], starts, 0)
  {
    assert tmp[0..] == tmp && [] + Segments(tmp) == Segments(tmp);
  }

  /** Slashes may be skipped at any point of the scan. */
  lemma AfterSlashes(tmp: seq<byte>, done: seq<seq<byte>>, pos: nat, at: nat, o: seq<byte>, starts: seq<nat>,
                     depth: nat)
    requires Between(tmp, done, pos, o, starts, depth) && pos < |tmp| && pos <= at && Scanned(tmp, done, at)
    requires at == |tmp| || tmp[at] != SLASH
    ensures |o| <= at + Lead(tmp) && (done != [] ==> |o| + 1 <= at + Lead(tmp))
    ensures at == |tmp| ==> Between(tmp, done, at, o, starts, depth)
  {
    StackOfNone(done);
  }

  lemma StackOfNone(done: seq<seq<byte>>)
    ensures done == [] ==> Stack(done) == []
  {
  }

  /** The next segment fits the segment buffer, and the stack after it the start table. */
  lemma NextFits(tmp: seq<byte>, done: seq<seq<byte>>, at: nat)
    requires WithinBounds(tmp) && Scanned(tmp, done, at) && at < |tmp| && tmp[at] != SLASH
    ensures var k := WordLen(tmp[at..]);
            && k < SEG_SIZE && Word(tmp[at..at + k]) && Scanned(tmp, done + [tmp[at..at + k]], at + k)
            && |Stack(done + [tmp[at..at + k]])| <= MAX_DEPTH && (at + k == |tmp| || tmp[at + k] == SLASH)
  {
    var k := WordLen(tmp[at..]);
    ScanSegment(tmp, done, at, k);
    assert |Stack(Segments(tmp)[..|done| + 1])| <= MAX_DEPTH;
    assert at + k < |tmp| ==> tmp[at..][k] == tmp[at + k];
  }

  method SkipSlashes(tmp: seq<byte>, pos: nat, ghost done: seq<seq<byte>>) returns (at: nat)
    requires Scanned(tmp, done, pos)
    ensures pos <= at <= |tmp| && Scanned(tmp, done, at) && (at == |tmp| || tmp[at] != SLASH)
  {
    at := pos;
    while at < |tmp| && tmp[at] == SLASH
      invariant pos <= at <= |tmp| && Scanned(tmp, done, at)
    {
      SkipSlash(tmp, done, at);
      at := at + 1;
    }
  }

  lemma StackSnoc(done: seq<seq<byte>>, g: seq<byte>)
    ensures Stack(done + [g]) == Pushed(Stack(done), g)
  {
    assert (done + [g])[..|done|] == done;
  }

  /** What one segment does to the output, seen from the scan. */
  lemma Advance(tmp: seq<byte>, done: seq<seq<byte>>, g: seq<byte>, pos: nat, o: seq<byte>, starts: seq<nat>,
                st: seq<seq<byte>>)
    requires Scanned(tmp, done + [g], pos) && (pos == |tmp| || tmp[pos] == SLASH)
    requires Words(done) && Word(g) && st == Pushed(Stack(done), g)
    requires Shows(o, st) && StartsOk(starts, st) && |o| <= pos + Lead(tmp)
    ensures Between(tmp, done + [g], pos, o, starts, |st|)
  {
    StackSnoc(done, g);
  }

  method PutSegment(seg: seq<byte>, outBuf: array<byte>, out: nat) returns (out2: nat)
    requires 1 <= out && out + |seg| < outBuf.Length
    modifies outBuf
    ensures out2 == out + |seg| && outBuf[..out2] == old(outBuf[..out]) + seg
  {
    out2 := out;
    var t := 0;
    while t < |seg| && out2 < outBuf.Length - 1
      invariant 0 <= t <= |seg| && out2 == out + t
      invariant outBuf[..out2] == old(outBuf[..out]) + seg[..t]
    {
      outBuf[out2] := seg[t];
      out2 := out2 + 1;
      t := t + 1;
    }
  }

  /** Applies one segment: nothing for ".", back to the start of the last one for "..", otherwise appended. */
  method Handle(seg: seq<byte>, ghost st: seq<seq<byte>>, outBuf: array<byte>, out: nat, segStart: array<nat>,
                segCount: nat)
    returns (out2: nat, segCount2: nat)
    requires Resolved(st) && Word(seg) && |Pushed(st, seg)| <= segStart.Length && segCount == |st|
    requires 1 <= out < outBuf.Length && Shows(outBuf[..out], st) && StartsOk(segStart[..], st)
    requires out + |seg| + (if st == [] then 0 else 1) < outBuf.Length
    modifies outBuf, segStart
    ensures segCount2 == |Pushed(st, seg)|
    ensures 1 <= out2 <= out + |seg| + (if st == [] then 0 else 1)
    ensures Shows(outBuf[..out2], Pushed(st, seg)) && StartsOk(segStart[..], Pushed(st, seg))
  {
    hide Path, Stack, Segments;
    out2, segCount2 := out, segCount;
    if seg == [PERIOD] {
      return;
    }
    if seg == [PERIOD, PERIOD] {
      if segCount > 0 {
        ShowsPop(outBuf[..out], st);
        StartsPop(segStart[..], st);
        segCount2 := segCount - 1;
        out2 := segStart[segCount2];
        assert outBuf[..out][..out2] == outBuf[..out2];
      }
      return;
    }
    ghost var o := outBuf[..out];
    ShowsPush(o, st, seg);
    LoneSlash(o, st);
    if out > 1 && out < outBuf.Length - 1 && outBuf[out - 1] != SLASH {
      outBuf[out] := SLASH;
      out2 := out + 1;
      assert outBuf[..out2] == o + [SLASH];
    }
    StartsPush(segStart[..], st, seg, out2);
    segStart[segCount] := out2;
    segCount2 := segCount + 1;
    out2 := PutSegment(seg, outBuf, out2);
  }

  lemma LoneSlash(o: seq<byte>, st: seq<seq<byte>>)
    requires Shows(o, st)
    ensures st == [] ==> |o| == 1
  {
  }

  /** The whole text is consumed: the output is the normalised path, but for a slash left by a pop. */
  lemma EndScan(tmp: seq<byte>, done: seq<seq<byte>>, o: seq<byte>, starts: seq<nat>, depth: nat)
    requires Between(tmp, done, |tmp|, o, starts, depth)
    ensures Trimmed(o) == Path(Stack(Segments(tmp)))
    ensures |o| <= |tmp| + Lead(tmp)
  {
    assert done == Segments(tmp);
    StackIsResolved(done);
    FinalTrim(o, Stack(done));
  }

  lemma Opened(tmp: seq<byte>, done: seq<seq<byte>>, pos: nat, o: seq<byte>, starts: seq<nat>, depth: nat)
    requires Between(tmp, done, pos, o, starts, depth)
    ensures Scanned(tmp, done, pos) && Words(done) && Resolved(Stack(done)) && depth == |Stack(done)|
    ensures Shows(o, Stack(done)) && StartsOk(starts, Stack(done)) && (Stack(done) != [] ==> done != [])
  {
    StackIsResolved(done);
    StackOfNone(done);
  }

  /** Without the slash that a pop may leave at the end. */
  function Trimmed(o: seq<byte>): seq<byte> {
    if |o| > 1 && o[|o| - 1] == SLASH then o[..|o| - 1] else o
  }

  /** One turn of the scan: skips slashes, reads a segment and applies it. */
  method Turn(tmp: seq<byte>, pos: nat, ghost done: seq<seq<byte>>, outBuf: array<byte>, out: nat,
              segStart: array<nat>, segCount: nat)
    returns (pos2: nat, out2: nat, segCount2: nat, ghost done2: seq<seq<byte>>)
    requires WithinBounds(tmp) && |tmp| + Lead(tmp) < outBuf.Length && segStart.Length == MAX_DEPTH
    requires 1 <= out < outBuf.Length && pos < |tmp|
    requires Between(tmp, done, pos, outBuf[..out], segStart[..], segCount)
    modifies outBuf, segStart
    ensures pos < pos2 <= |tmp| && 1 <= out2 < outBuf.Length
    ensures Between(tmp, done2, pos2, outBuf[..out2], segStart[..], segCount2)
  {
    hide Segments, Stack, Path, Between, WithinBounds, Scanned, Shows, StartsOk, Resolved, Words, Word;
    Opened(tmp, done, pos, outBuf[..out], segStart[..], segCount);
    var at := SkipSlashes(tmp, pos, done);
    AfterSlashes(tmp, done, pos, at, outBuf[..out], segStart[..], segCount);
    if at == |tmp| {
      return at, out, segCount, done;
    }
    NextFits(tmp, done, at);
    StackSnoc(done, tmp[at..at + WordLen(tmp[at..])]);
    var seg;
    seg, pos2 := ReadSegment(tmp, at);
    out2, segCount2 := Handle(seg, Stack(done), outBuf, out, segStart, segCount);
    Advance(tmp, done, seg, pos2, outBuf[..out2], segStart[..], Pushed(Stack(done), seg));
    done2 := done + [seg];
  }

  /** The scan over the whole text. */
  method Resolve(tmp: seq<byte>, outBuf: array<byte>) returns (out: nat)
    requires WithinBounds(tmp) && |tmp| + Lead(tmp) < outBuf.Length
    modifies outBuf
    ensures 1 <= out < outBuf.Length && Trimmed(outBuf[..out]) == Path(Stack(Segments(tmp)))
  {
    hide Segments, Stack, Path, Between, WithinBounds, Trimmed;
    outBuf[0] := SLASH;
    out := 1;
    var segStart := new nat[MAX_DEPTH];
    var segCount: nat := 0;
    var pos: nat := 0;
    ghost var done: seq<seq<byte>> := [];
    StartScan(tmp, segStart[..]);
    assert outBuf[..1] == [SLASH];
    while pos < |tmp|
      invariant 1 <= out < outBuf.Length && pos <= |tmp|
      invariant Between(tmp, done, pos, outBuf[..out], segStart[..], segCount)
      decreases |tmp| - pos
    {
      pos, out, segCount, done := Turn(tmp, pos, done, outBuf, out, segStart, segCount);
    }
    EndScan(tmp, done, outBuf[..out], segStart[..], segCount);
  }

  /** Writes the normalised path into `outBuf`, followed by a zero byte. */
  method NormalizeAbsPath(inPath: Option<CString>, cwd: Option<CString>, outBuf: array<byte>) returns (ghost n: nat)
    requires inPath.Some? ==> WithinBounds(Joined(inPath.value, cwd))
    requires inPath.Some? ==> |Joined(inPath.value, cwd)| + Lead(Joined(inPath.value, cwd)) < outBuf.Length
    modifies outBuf
    ensures outBuf.Length > 0 ==> n < outBuf.Length && outBuf[n] == 0
    ensures outBuf.Length > 0 ==> outBuf[..n] == if inPath.Some? then Path(Stack(Segments(Joined(inPath.value, cwd))))
            else []
  {
    hide Segments, Stack, Path, WithinBounds;
    if inPath.None? {
      if outBuf.Length > 0 {
        outBuf[0] := 0;
      }
      return 0;
    }
    var tmp := JoinPath(inPath.value, cwd);
    Fits(Joined(inPath.value, cwd));
    var out := Resolve(tmp, outBuf);
    ghost var o := outBuf[..out];
    if out > 1 && outBuf[out - 1] == SLASH {
      out := out - 1;
      assert o[..out] == outBuf[..out];
    }
    outBuf[out] := 0;
    n := out;
  }

  lemma Fits(tmp: seq<byte>)
    requires WithinBounds(tmp)
    ensures |tmp| < TMP_SIZE
  {
  }
}
