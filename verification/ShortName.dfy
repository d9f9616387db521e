/** 8.3 short names: the 11 padded bytes of a directory slot, and the dotted text a caller writes. */
module ShortName {
  import opened Bytes

  const SPACE: byte := 0x20
  const PERIOD: byte := 0x2E
  const DOT: seq<byte> := [0x2E, 0x20, 0x20, 0x20, 0x20, 0x20, 0x20, 0x20, 0x20, 0x20, 0x20]
  const DOT_DOT: seq<byte> := [0x2E, 0x2E, 0x20, 0x20, 0x20, 0x20, 0x20, 0x20, 0x20, 0x20, 0x20]

  function Upper(b: byte): byte {
    if 0x61 <= b <= 0x7A then b - 0x20 else b
  }

  function UpperAll(s: seq<byte>): (r: seq<byte>)
    ensures |r| == |s|
    ensures forall i | 0 <= i < |s| :: r[i] == Upper(s[i])
  {
    seq(|s|, i requires 0 <= i < |s| => Upper(s[i]))
  }

  /** The part of a padded field before its first space. */
  function Field(s: seq<byte>): (r: seq<byte>)
    ensures r <= s
    ensures SPACE !in r
    ensures |r| < |s| ==> s[|r|] == SPACE
  {
    if s == [] || s[0] == SPACE then [] else [s[0]] + Field(s[1..])
  }

  /** The text both drivers rebuild from a slot's name before comparing it. */
  function Dotted(n: seq<byte>): seq<byte>
    requires |n| == 11
  {
    var base, ext := Field(n[..8]), Field(n[8..]);
    UpperAll(if ext == [] then base else base + [PERIOD] + ext)
  }

  /** Spaces occur only as padding at the end. */
  predicate Padded(s: seq<byte>) {
    forall i | |Field(s)| <= i < |s| :: s[i] == SPACE
  }

  predicate Plain(c: byte) {
    c != 0 && c != PERIOD && !(0x61 <= c <= 0x7A)
  }

  /** A slot name as the FAT specification lets it appear on disk, the two dot entries aside. */
  predicate Regular(n: seq<byte>) {
    |n| == 11 && Padded(n[..8]) && Padded(n[8..]) && forall i | 0 <= i < 11 :: Plain(n[i])
  }

  predicate Clean(n: seq<byte>) {
    Regular(n) || n == DOT || n == DOT_DOT
  }

  lemma RegularIsClean(n: seq<byte>)
    requires Regular(n)
    ensures Clean(n) && |n| == 11
  {
  }

  predicate IsDot(name: seq<byte>) {
    name == [PERIOD] || name == [PERIOD, PERIOD]
  }

  lemma UpperPlain(s: seq<byte>)
    requires forall i | 0 <= i < |s| :: Plain(s[i]) || s[i] == PERIOD
    ensures UpperAll(s) == s
  {
  }

  lemma RegularDotted(n: seq<byte>)
    requires Regular(n)
    ensures Dotted(n) == var b, e := Field(n[..8]), Field(n[8..]); if e == [] then b else b + [PERIOD] + e
    ensures PERIOD !in Field(n[..8]) && PERIOD !in Field(n[8..])
  {
    var b, e := Field(n[..8]), Field(n[8..]);
    assert forall i | 0 <= i < |b| :: b[i] == n[i];
    assert forall i | 0 <= i < |e| :: e[i] == n[8 + i];
    UpperPlain(if e == [] then b else b + [PERIOD] + e);
  }

  lemma DotsDotted()
    ensures Dotted(DOT) == [PERIOD] && Dotted(DOT_DOT) == [PERIOD, PERIOD]
  {
    var d, dd := DOT[..8], DOT_DOT[..8];
    assert d[0] == PERIOD && d[1] == SPACE && dd[0] == PERIOD && dd[1] == PERIOD && dd[2] == SPACE;
    assert Field(d) == [d[0]] + Field(d[1..]) == [PERIOD];
    assert Field(dd) == [dd[0]] + Field(dd[1..]) == [PERIOD, PERIOD] by {
      assert Field(dd[1..]) == [dd[1]] + Field(dd[1..][1..]);
    }
    assert Field(DOT[8..]) == [] && Field(DOT_DOT[8..]) == [];
  }

  lemma PaddedDetermined(s: seq<byte>, t: seq<byte>)
    requires |s| == |t| && Padded(s) && Padded(t) && Field(s) == Field(t)
    ensures s == t
  {
    assert forall i | 0 <= i < |s| :: s[i] == if i < |Field(s)| then Field(s)[i] else SPACE;
    assert forall i | 0 <= i < |t| :: t[i] == if i < |Field(t)| then Field(t)[i] else SPACE;
  }

  /** The text before the first period decides both fields. */
  lemma SplitDetermined(b1: seq<byte>, e1: seq<byte>, b2: seq<byte>, e2: seq<byte>)
    requires PERIOD !in b1 && PERIOD !in b2
    requires (if e1 == [] then b1 else b1 + [PERIOD] + e1) == (if e2 == [] then b2 else b2 + [PERIOD] + e2)
    ensures b1 == b2 && e1 == e2
  {
    var s, t := if e1 == [] then b1 else b1 + [PERIOD] + e1, if e2 == [] then b2 else b2 + [PERIOD] + e2;
    assert forall i | 0 <= i < |b1| :: s[i] == b1[i] && s[i] != PERIOD;
    assert forall i | 0 <= i < |b2| :: t[i] == b2[i] && t[i] != PERIOD;
    assert e1 != [] ==> s[|b1|] == PERIOD;
    assert e2 != [] ==> t[|b2|] == PERIOD;
    assert |b1| == |b2|;
    assert b1 == s[..|b1|] && b2 == t[..|b2|];
    assert e1 != [] ==> s[|b1| + 1..] == e1;
    assert e2 != [] ==> t[|b1| + 1..] == e2;
  }

  /** Distinct clean slot names read as distinct texts, so comparing texts is comparing slots. */
  lemma DottedInjective(m: seq<byte>, n: seq<byte>)
    requires Clean(m) && Clean(n) && Dotted(m) == Dotted(n)
    ensures m == n
  {
    hide Field, Padded, Plain, Dotted, UpperAll;
    DotsDotted();
    if Regular(m) && Regular(n) {
      RegularDotted(m); RegularDotted(n);
      SplitDetermined(Field(m[..8]), Field(m[8..]), Field(n[..8]), Field(n[8..]));
      PaddedDetermined(m[..8], n[..8]);
      PaddedDetermined(m[8..], n[8..]);
      assert m == m[..8] + m[8..] && n == n[..8] + n[8..];
    } else if Regular(m) {
      RegularNotDot(m);
    } else if Regular(n) {
      RegularNotDot(n);
    }
  }

  lemma RegularNotDot(n: seq<byte>)
    requires Regular(n)
    ensures !IsDot(Dotted(n))
  {
    RegularDotted(n);
    var b, e := Field(n[..8]), Field(n[8..]);
    if e != [] {
      assert Dotted(n)[|Dotted(n)| - 1] == e[|e| - 1];
    }
  }

  // ---- Packing ----

  function FirstPeriod(s: seq<byte>): (r: nat)
    ensures r <= |s|
    ensures forall i | 0 <= i < r :: s[i] != PERIOD
    ensures r < |s| ==> s[r] == PERIOD
  {
    if s == [] || s[0] == PERIOD then 0
    else 1 + FirstPeriod(s[1..])
  }

  function Base(s: seq<byte>): seq<byte> {
    s[..FirstPeriod(s)]
  }

  function Ext(s: seq<byte>): seq<byte> {
    if FirstPeriod(s) < |s| then s[FirstPeriod(s) + 1..] else []
  }

  /** The characters a packed name may hold, after upper-casing. */
  predicate Allowed(c: byte) {
    0x41 <= c <= 0x5A || 0x30 <= c <= 0x39 || c == 0x5F || c == 0x24 || c == 0x7E || c == 0x21
  }

  predicate AllAllowed(s: seq<byte>) {
    forall i | 0 <= i < |s| :: Allowed(Upper(s[i]))
  }

  /** The names PackShortName11 accepts: allowed characters and at most one period. */
  predicate Accepted(s: seq<byte>) {
    AllAllowed(Base(s)) && AllAllowed(Ext(s))
  }

  /** The first `w` bytes of `s` in upper case, padded with spaces to `w`. */
  function Pad(s: seq<byte>, w: nat): (r: seq<byte>)
    ensures |r| == w
    ensures forall i | 0 <= i < w :: r[i] == if i < |s| then Upper(s[i]) else SPACE
  {
    seq(w, i requires 0 <= i < w => if i < |s| then Upper(s[i]) else SPACE)
  }

  function Pack(s: seq<byte>): (r: seq<byte>)
    ensures |r| == 11
  {
    Pad(Base(s), 8) + Pad(Ext(s), 3)
  }

  lemma FieldOfPad(s: seq<byte>, w: nat)
    requires AllAllowed(s)
    ensures Field(Pad(s, w)) == UpperAll(if |s| <= w then s else s[..w])
    ensures Padded(Pad(s, w))
    ensures forall i | 0 <= i < w :: Plain(Pad(s, w)[i])
  {
    var p, f := Pad(s, w), Field(Pad(s, w));
    assert forall i | 0 <= i < |f| :: f[i] == p[i];
    assert |f| < w ==> p[|f|] == SPACE;
    var t := if |s| <= w then s else s[..w];
    assert forall i | 0 <= i < |t| :: t[i] == s[i];
    assert forall i | 0 <= i < |f| :: f[i] != SPACE;
    assert |t| < w ==> p[|t|] == SPACE;
  }

  lemma PadFirst(s: seq<byte>)
    requires AllAllowed(s)
    ensures Pad(s, 8)[0] != 0 && Pad(s, 8)[0] != 0xE5
  {
  }

  /** Whatever is accepted packs to a regular slot name. */
  lemma PackRegular(s: seq<byte>)
    requires Accepted(s)
    ensures Regular(Pack(s))
    ensures Dotted(Pack(s)) == var b, e := Field(Pad(Base(s), 8)), Field(Pad(Ext(s), 3));
                               if e == [] then b else b + [PERIOD] + e
    ensures Pack(s)[0] != 0 && Pack(s)[0] != 0xE5
  {
    hide Field, Pad, Base, Ext, Allowed, Upper, Padded, Plain, Dotted;
    var n := Pack(s);
    FieldOfPad(Base(s), 8); FieldOfPad(Ext(s), 3);
    PadFirst(Base(s));
    assert n[..8] == Pad(Base(s), 8) && n[8..] == Pad(Ext(s), 3);
    assert forall i | 0 <= i < 8 :: n[i] == Pad(Base(s), 8)[i];
    assert forall i | 8 <= i < 11 :: n[i] == Pad(Ext(s), 3)[i - 8];
    RegularDotted(n);
  }

  /** Canonical names fit 8.3 and do not end in a period. */
  predicate Canonical(s: seq<byte>) {
    |Base(s)| <= 8 && |Ext(s)| <= 3 && (FirstPeriod(s) < |s| ==> Ext(s) != [])
  }

  /** Packing and reading back gives the upper-cased name exactly for the canonical names. */
  lemma {:induction false} PackRoundTrip(s: seq<byte>)
    requires Accepted(s)
    ensures Dotted(Pack(s)) == UpperAll(s) <==> Canonical(s)
  {
    PackRegular(s);
    FieldOfPad(Base(s), 8); FieldOfPad(Ext(s), 3);
    var b, e, d := Field(Pad(Base(s), 8)), Field(Pad(Ext(s), 3)), Dotted(Pack(s));
    if Canonical(s) {
      assert b == UpperAll(Base(s)) && e == UpperAll(Ext(s));
      UpperSplit(s);
    } else {
      assert |d| < |s|;
    }
  }

  lemma {:induction false} UpperSplit(s: seq<byte>)
    ensures UpperAll(s) == if FirstPeriod(s) < |s| then UpperAll(Base(s)) + [PERIOD] + UpperAll(Ext(s))
                           else UpperAll(Base(s))
  {
    if FirstPeriod(s) < |s| {
      var k := FirstPeriod(s);
      var r := UpperAll(Base(s)) + [PERIOD] + UpperAll(Ext(s));
      assert forall i | 0 <= i < |s| :: r[i] == if i < k then Upper(s[i]) else if i == k then PERIOD else Upper(s[i]);
      assert r == UpperAll(s);
    } else {
      assert s == Base(s);
    }
  }

  /** `s` is the base `b`, followed by a period and the extension `x` when `dotted`. */
  ghost predicate SplitAs(s: seq<byte>, b: seq<byte>, dotted: bool, x: seq<byte>) {
    s == (if dotted then b + [PERIOD] + x else b) && PERIOD !in b && (!dotted ==> x == [])
  }

  lemma {:induction false} SplitIs(s: seq<byte>, b: seq<byte>, dotted: bool, x: seq<byte>)
    requires SplitAs(s, b, dotted, x)
    ensures Base(s) == b && Ext(s) == x
  {
    assert dotted ==> s[|b|] == PERIOD;
    assert forall i | 0 <= i < |b| :: s[i] == b[i];
    assert FirstPeriod(s) == |b|;
  }

  /** A character that is neither allowed nor the first period spoils the name. */
  lemma SpoiltBy(s: seq<byte>, i: nat, b: seq<byte>, dotted: bool, x: seq<byte>)
    requires i < |s| && SplitAs(s[..i], b, dotted, x) && !Allowed(Upper(s[i])) && (s[i] == PERIOD ==> dotted)
    ensures !Accepted(s)
  {
    var f := FirstPeriod(s);
    if dotted {
      assert s[..i][|b|] == s[|b|];
      assert Ext(s)[i - f - 1] == s[i];
    } else {
      assert f >= i;
      assert Base(s)[i] == s[i];
    }
  }

  lemma PadSnoc(s: seq<byte>, w: nat, c: byte)
    ensures Pad(s + [c], w) == if |s| < w then Pad(s, w)[|s| := Upper(c)] else Pad(s, w)
  {
  }

  /** PackShortName11: scans the text once, filling the name and extension fields of the slot. */
  method PackShortName11(name83: CString) returns (out11: seq<byte>, okIs83: bool)
    ensures okIs83 <==> Accepted(name83)
    ensures okIs83 ==> out11 == Pack(name83)
  {
    hide Allowed, Upper, Base, Ext, FirstPeriod, Pad;
    out11 := seq(11, _ => SPACE);
    okIs83 := true;
    var n, e := 0, -1;
    var i := 0;
    ghost var b: seq<byte>, x: seq<byte> := [], [];
    assert out11 == Pad(b, 8) + Pad(x, 3);
    while i < |name83|
      invariant 0 <= i <= |name83| && SplitAs(name83[..i], b, e >= 0, x)
      invariant n == (if |b| < 8 then |b| else 8) && (e >= 0 ==> e == if |x| < 3 then |x| else 3)
      invariant AllAllowed(b) && AllAllowed(x)
      invariant out11 == Pad(b, 8) + Pad(x, 3)
    {
      if name83[i] == PERIOD {
        if e >= 0 {
          PeriodSpoils(name83, i, b, x);
          okIs83 := false;
          return;
        }
        e := 0;
        i := i + 1;
        continue;
      }
      var c := Upper(name83[i]);
      if !Allowed(c) {
        SpoiltBy(name83, i, b, e >= 0, x);
        okIs83 := false;
        return;
      }
      if e < 0 {
        PadSnoc(b, 8, name83[i]);
        b := b + [name83[i]];
        if n < 8 {
          out11 := out11[n := c];
          n := n + 1;
        }
      } else {
        PadSnoc(x, 3, name83[i]);
        x := x + [name83[i]];
        if e < 3 {
          out11 := out11[8 + e := c];
          e := e + 1;
        }
      }
      i := i + 1;
    }
    assert name83[..i] == name83;
    SplitIs(name83, b, e >= 0, x);
  }

  lemma PeriodSpoils(s: seq<byte>, i: nat, b: seq<byte>, x: seq<byte>)
    requires i < |s| && SplitAs(s[..i], b, true, x) && s[i] == PERIOD
    ensures !Accepted(s)
  {
    SpoiltBy(s, i, b, true, x);
  }

  /** The name loops of both Find helpers: copy each field up to its first space, join, upper-case. */
  method MergedName(n: seq<byte>) returns (merged: seq<byte>)
    requires |n| == 11
    ensures merged == Dotted(n)
  {
    var name := CopyField(n[..8]);
    var ext := CopyField(n[8..]);
    merged := name;
    if |ext| > 0 {
      merged := merged + [PERIOD] + ext;
    }
    merged := UpperAll(merged);
  }

  lemma {:induction false} FieldIs(f: seq<byte>, j: nat)
    requires j <= |f| && (forall i | 0 <= i < j :: f[i] != SPACE) && (j < |f| ==> f[j] == SPACE)
    ensures Field(f) == f[..j]
  {
    var r := Field(f);
    assert forall i | 0 <= i < |r| :: r[i] == f[i] && r[i] != SPACE;
  }

  method CopyField(f: seq<byte>) returns (r: seq<byte>)
    ensures r == Field(f)
  {
    r := [];
    var j := 0;
    while j < |f|
      invariant 0 <= j <= |f| && r == f[..j]
      invariant forall i | 0 <= i < j :: f[i] != SPACE
    {
      if f[j] == SPACE {
        break;
      }
      r := r + [f[j]];
      j := j + 1;
    }
    FieldIs(f, j);
  }

  // ---- Paths ----

  const SLASH: byte := 0x2F
  const COMPONENT_MAX := 12

  /** Length of the run of non-slash bytes at the front of `s`, cut at the 12 bytes of `comp`. */
  function Run(s: seq<byte>, room: nat): (k: nat)
    ensures k <= |s| && k <= room
    ensures room > 0 && s != [] && s[0] != SLASH ==> k > 0
  {
    if s == [] || s[0] == SLASH || room == 0 then 0 else 1 + Run(s[1..], room - 1)
  }

  /** What is left after one component and the slash that ends it. */
  function Rest(s: seq<byte>): (r: seq<byte>)
    requires s != []
    ensures |r| < |s|
  {
    var t := s[Run(s, COMPONENT_MAX)..];
    if t != [] && t[0] == SLASH then t[1..] else t
  }

  /** The upper-cased components the path loops visit, in order. */
  function Components(s: seq<byte>): seq<seq<byte>> {
    if s == [] then []
    else
      var k := Run(s, COMPONENT_MAX);
      (if k == 0 then [] else [UpperAll(s[..k])]) + Components(Rest(s))
  }

  lemma {:induction false} ComponentsEmpty(s: seq<byte>)
    ensures Components(s) == [] <==> forall i | 0 <= i < |s| :: s[i] == SLASH
  {
    if s != [] {
      if s[0] == SLASH {
        assert Rest(s) == s[1..];
        ComponentsEmpty(s[1..]);
        assert forall i | 1 <= i < |s| :: s[i] == s[1..][i - 1];
      }
    }
  }

  lemma {:induction false} RunJoin(a: seq<byte>, b: seq<byte>, room: nat)
    ensures Run(a + [SLASH] + b, room) == Run(a, room)
  {
    var s := a + [SLASH] + b;
    if a != [] && a[0] != SLASH && room > 0 {
      assert s[1..] == a[1..] + [SLASH] + b;
      RunJoin(a[1..], b, room - 1);
    }
  }

  lemma RestIs(s: seq<byte>, k: nat, t: seq<byte>)
    requires s != [] && k == Run(s, COMPONENT_MAX) && s[k..] == t
    ensures Rest(s) == if t != [] && t[0] == SLASH then t[1..] else t
  {
    hide Run;
  }

  lemma TailOfJoin(a: seq<byte>, b: seq<byte>, k: nat)
    requires k <= |a|
    ensures (a + [SLASH] + b)[k..] == a[k..] + [SLASH] + b
  {
  }

  lemma RestAtSlash(a: seq<byte>, b: seq<byte>)
    requires Run(a, COMPONENT_MAX) == |a|
    ensures Rest(a + [SLASH] + b) == b && (a != [] ==> Rest(a) == [])
  {
    hide Run, Rest;
    RunJoin(a, b, COMPONENT_MAX);
    TailOfJoin(a, b, |a|);
    RestIs(a + [SLASH] + b, |a|, [SLASH] + b);
    if a != [] { RestIs(a, |a|, []); }
  }

  lemma RestInside(a: seq<byte>, b: seq<byte>)
    requires Run(a, COMPONENT_MAX) < |a|
    ensures Rest(a + [SLASH] + b) == Rest(a) + [SLASH] + b
  {
    hide Run, Rest;
    var k := Run(a, COMPONENT_MAX);
    RunJoin(a, b, COMPONENT_MAX);
    TailOfJoin(a, b, k);
    RestIs(a + [SLASH] + b, k, a[k..] + [SLASH] + b);
    RestIs(a, k, a[k..]);
    TailOfJoin(a[k..], b, 1);
  }

  /** A slash separates components. */
  lemma {:induction false} ComponentsJoin(a: seq<byte>, b: seq<byte>)
    ensures Components(a + [SLASH] + b) == Components(a) + Components(b)
    decreases |a|
  {
    hide Run, Rest, UpperAll;
    var s := a + [SLASH] + b;
    var k := Run(a, COMPONENT_MAX);
    RunJoin(a, b, COMPONENT_MAX);
    assert s[..k] == a[..k];
    if k == |a| {
      RestAtSlash(a, b);
    } else {
      RestInside(a, b);
      ComponentsJoin(Rest(a), b);
    }
  }

  lemma {:induction false} RunWhole(s: seq<byte>, room: nat)
    requires |s| <= room && SLASH !in s
    ensures Run(s, room) == |s|
  {
    if s != [] {
      RunWhole(s[1..], room - 1);
    }
  }

  lemma ComponentsOne(s: seq<byte>)
    requires 0 < |s| <= COMPONENT_MAX && SLASH !in s
    ensures Components(s) == [UpperAll(s)]
  {
    RunWhole(s, COMPONENT_MAX);
    assert s[..|s|] == s && Rest(s) == [];
  }

  /** One turn of the component loop: the next component (possibly empty) and the remaining text. */
  method NextComponent(p: CString) returns (comp: CString, rest: CString)
    requires p != []
    ensures rest == Rest(p)
    ensures comp == UpperAll(p[..Run(p, COMPONENT_MAX)])
    ensures Components(p) == (if comp == [] then [] else [comp]) + Components(rest)
  {
    var ci := 0;
    while ci < |p| && p[ci] != SLASH && ci < COMPONENT_MAX
      invariant 0 <= ci <= |p| && ci <= COMPONENT_MAX
      invariant Run(p, COMPONENT_MAX) == ci + Run(p[ci..], COMPONENT_MAX - ci)
    {
      assert p[ci..][1..] == p[ci + 1..];
      ci := ci + 1;
    }
    comp := UpperAll(p[..ci]);
    rest := p[ci..];
    if rest != [] && rest[0] == SLASH {
      rest := rest[1..];
    }
  }

  /** The peek past further slashes that decides whether a component is the last one. */
  method OnlySlashes(p: CString) returns (last: bool)
    ensures last <==> Components(p) == []
  {
    ComponentsEmpty(p);
    var q := 0;
    while q < |p| && p[q] == SLASH
      invariant 0 <= q <= |p|
      invariant forall i | 0 <= i < q :: p[i] == SLASH
    {
      q := q + 1;
    }
    last := q == |p|;
  }
}
