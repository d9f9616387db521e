/** Paths over the tree of a volume: which entry a path names and what a reader gets. */
module FatTree {
  import opened Bytes
  import opened ShortName
  import opened FatVolume

  type Namespace = imap<Key, Node>

  /** The directory reached from `d` by descending through `cs`, if every step is a directory. */
  ghost function Walk(t: Namespace, d: nat, cs: seq<seq<byte>>): Option<nat>
    decreases |cs|
  {
    if cs == [] then Some(d)
    else if Key(d, cs[0]) in t && t[Key(d, cs[0])].Dir? then Walk(t, t[Key(d, cs[0])].head, cs[1..])
    else None
  }

  /** The components of an absolute path; none when the path is not absolute. */
  function PathComponents(path: CString): seq<seq<byte>> {
    if path == [] || path[0] != SLASH then [] else Components(path[1..])
  }

  /** Callers pass normalised paths: no component is "." or "..". */
  predicate NoDots(cs: seq<seq<byte>>) {
    forall i | 0 <= i < |cs| :: !IsDot(cs[i])
  }

  function FinalName(cs: seq<seq<byte>>): seq<byte>
    requires cs != []
  {
    cs[|cs| - 1]
  }

  ghost function ParentDir(t: Namespace, root: nat, cs: seq<seq<byte>>): Option<nat> {
    if cs == [] then None else Walk(t, root, cs[..|cs| - 1])
  }

  /** The entry a read looks for: the final component as written. */
  ghost function ReadKey(t: Namespace, root: nat, cs: seq<seq<byte>>): Option<Key> {
    match ParentDir(t, root, cs)
    case None => None
    case Some(d) => Some(Key(d, FinalName(cs)))
  }

  /** The entry a write touches: the final component as packed into 11 bytes. */
  ghost function WriteKey(t: Namespace, root: nat, cs: seq<seq<byte>>): Option<Key> {
    match ParentDir(t, root, cs)
    case None => None
    case Some(d) => if Accepted(FinalName(cs)) then Some(Key(d, Dotted(Pack(FinalName(cs))))) else None
  }

  /** What a reader of `k` gets; nothing when `k` is not a file. */
  ghost function Text(t: Namespace, k: Key): seq<byte> {
    if k in t && t[k].File? then Contents(t[k]) else []
  }

  /** What reading at most `max` bytes of a path gives. */
  ghost function ReadPath(t: Namespace, root: nat, cs: seq<seq<byte>>, max: nat): Option<seq<byte>> {
    match ReadKey(t, root, cs)
    case None => None
    case Some(k) => if k in t && t[k].File? then Some(Cut(Contents(t[k]), max)) else None
  }

  /** Components are upper case already, so a canonical final name is read under the key it was written to. */
  lemma SameKey(t: Namespace, root: nat, cs: seq<seq<byte>>)
    requires cs != [] && UpperAll(FinalName(cs)) == FinalName(cs)
    requires Accepted(FinalName(cs)) && Canonical(FinalName(cs))
    ensures WriteKey(t, root, cs) == ReadKey(t, root, cs)
  {
    PackRoundTrip(FinalName(cs));
  }

  lemma {:induction false} WalkUpdate(t: Namespace, k: Key, n: Node, d: nat, cs: seq<seq<byte>>)
    requires n.File? && (k in t ==> t[k].File?)
    ensures Walk(t[k := n], d, cs) == Walk(t, d, cs)
    decreases |cs|
  {
    if cs != [] && Key(d, cs[0]) in t && t[Key(d, cs[0])].Dir? {
      WalkUpdate(t, k, n, t[Key(d, cs[0])].head, cs[1..]);
    }
  }

  /** The round trip: after the node of a path becomes `n`, reading that path gives its contents, and
      reading any path that names another entry gives what it gave before. */
  lemma ReadAfterWrite(t: Namespace, root: nat, cs: seq<seq<byte>>, n: Node, max: nat, other: seq<seq<byte>>)
    requires n.File? && WriteKey(t, root, cs).Some? && UpperAll(FinalName(cs)) == FinalName(cs)
             && Canonical(FinalName(cs))
    requires WriteKey(t, root, cs).value in t ==> t[WriteKey(t, root, cs).value].File?
    ensures var t2 := t[WriteKey(t, root, cs).value := n];
            && WriteKey(t2, root, cs) == WriteKey(t, root, cs)
            && ReadPath(t2, root, cs, max) == Some(Cut(Contents(n), max))
            && (ReadKey(t, root, other) != WriteKey(t, root, cs) ==>
                  ReadPath(t2, root, other, max) == ReadPath(t, root, other, max))
  {
    hide Walk, Cut, Dotted, Pack, Canonical, Accepted, UpperAll;
    var k := WriteKey(t, root, cs).value;
    SameKey(t, root, cs);
    WalkUpdate(t, k, n, root, cs[..|cs| - 1]);
    if other != [] {
      WalkUpdate(t, k, n, root, other[..|other| - 1]);
    }
  }

  lemma {:induction false} ComponentsUpper(s: seq<byte>, i: nat)
    requires i < |Components(s)|
    ensures UpperAll(Components(s)[i]) == Components(s)[i]
    decreases |s|
  {
    hide Run, Rest, UpperAll;
    var k := Run(s, COMPONENT_MAX);
    if k > 0 && i == 0 {
      UpperTwice(s[..k]);
    } else {
      ComponentsUpper(Rest(s), if k == 0 then i else i - 1);
    }
  }

  lemma UpperTwice(s: seq<byte>)
    ensures UpperAll(UpperAll(s)) == UpperAll(s)
  {
  }

  /** `t2` has every node of `t`, and what it has besides are directories. */
  ghost predicate MoreDirs(t: Namespace, t2: Namespace) {
    && (forall k: Key | k in t :: k in t2 && t2[k] == t[k])
    && (forall k: Key | k in t2 && k !in t :: t2[k].Dir?)
  }

  lemma {:induction false} WalkMore(t: Namespace, t2: Namespace, d: nat, cs: seq<seq<byte>>)
    requires MoreDirs(t, t2) && Walk(t, d, cs).Some?
    ensures Walk(t2, d, cs) == Walk(t, d, cs)
    decreases |cs|
  {
    if cs != [] {
      WalkMore(t, t2, t[Key(d, cs[0])].head, cs[1..]);
    }
  }

  /** Walking one more component. */
  lemma {:induction false} WalkSnoc(t: Namespace, d: nat, cs: seq<seq<byte>>, c: seq<byte>)
    requires Walk(t, d, cs).Some?
    ensures Walk(t, d, cs + [c]) ==
            var e := Walk(t, d, cs).value;
            if Key(e, c) in t && t[Key(e, c)].Dir? then Some(t[Key(e, c)].head) else None
    decreases |cs|
  {
    if cs == [] {
      assert cs + [c] == [c] && [c][1..] == [];
    } else {
      assert (cs + [c])[0] == cs[0] && (cs + [c])[1..] == cs[1..] + [c];
      WalkSnoc(t, t[Key(d, cs[0])].head, cs[1..], c);
    }
  }

  /** No step of the walk meets a file. */
  ghost predicate NoFiles(t: Namespace, d: nat, cs: seq<seq<byte>>)
    decreases |cs|
  {
    cs != [] && Key(d, cs[0]) in t ==>
      t[Key(d, cs[0])].Dir? && NoFiles(t, t[Key(d, cs[0])].head, cs[1..])
  }

  lemma {:induction false} WalkIsClear(t: Namespace, d: nat, cs: seq<seq<byte>>)
    requires Walk(t, d, cs).Some?
    ensures NoFiles(t, d, cs)
    decreases |cs|
  {
    if cs != [] {
      WalkIsClear(t, t[Key(d, cs[0])].head, cs[1..]);
    }
  }

  // ---- The directories form a tree ----

  /** No two entries lead to the same directory. */
  ghost predicate DirsUnique(t: Namespace) {
    forall x: Key, y: Key | x in t && y in t && t[x].Dir? && t[y].Dir? && t[x].head == t[y].head :: x == y
  }

  /** No entry leads back to the root. */
  ghost predicate Rooted(t: Namespace, root: nat) {
    forall x: Key | x in t && t[x].Dir? :: t[x].head != root
  }

  lemma WalkLast(t: Namespace, d: nat, cs: seq<seq<byte>>)
    requires cs != [] && Walk(t, d, cs).Some?
    ensures var p := cs[..|cs| - 1];
            && Walk(t, d, p).Some?
            && var k := Key(Walk(t, d, p).value, cs[|cs| - 1]);
            k in t && t[k].Dir? && Walk(t, d, cs) == Some(t[k].head)
  {
    var p := cs[..|cs| - 1];
    assert cs == p + [cs[|cs| - 1]];
    WalkPrefix(t, d, cs, |cs| - 1);
    WalkSnoc(t, d, p, cs[|cs| - 1]);
  }

  lemma {:induction false} WalkPrefix(t: Namespace, d: nat, cs: seq<seq<byte>>, i: nat)
    requires i <= |cs| && Walk(t, d, cs).Some?
    ensures Walk(t, d, cs[..i]).Some?
    decreases |cs|
  {
    if i > 0 {
      assert cs[..i][0] == cs[0] && cs[..i][1..] == cs[1..][..i - 1];
      WalkPrefix(t, t[Key(d, cs[0])].head, cs[1..], i - 1);
    }
  }

  /** Only one path leads from the root to a directory. */
  lemma {:induction false} WalkInjective(t: Namespace, root: nat, a: seq<seq<byte>>, b: seq<seq<byte>>)
    requires DirsUnique(t) && Rooted(t, root) && Walk(t, root, a).Some? && Walk(t, root, a) == Walk(t, root, b)
    ensures a == b
    decreases |a|
  {
    hide Walk;
    WalkNone(t, root);
    if a != [] { WalkLast(t, root, a); }
    if b != [] { WalkLast(t, root, b); }
    if a != [] && b != [] {
      WalkInjective(t, root, a[..|a| - 1], b[..|b| - 1]);
      assert a == a[..|a| - 1] + [a[|a| - 1]] && b == b[..|b| - 1] + [b[|b| - 1]];
    }
  }

  lemma WalkNone(t: Namespace, d: nat)
    ensures Walk(t, d, []) == Some(d)
  {
  }
}
