/** Path walks, as steps on values. */
module FatWalk {
  import opened Bytes
  import opened ShortName
  import opened FatVolume
  import opened FatSteps
  import opened FatLink
  import opened FatFile
  import opened FatTree
  import opened FatImage
  import opened FatScan

  /** What is left of the walk: the remaining components from `d` lead where all of `cs` lead from the root. */
  ghost predicate Onward(t: Namespace, root: nat, cs: seq<seq<byte>>, d: nat, rem: seq<seq<byte>>) {
    && (cs == [] <==> rem == [])
    && (rem != [] ==> FinalName(rem) == FinalName(cs) && Walk(t, d, rem[..|rem| - 1]) == ParentDir(t, root, cs))
  }

  lemma WalkStart(t: Namespace, root: nat, cs: seq<seq<byte>>)
    ensures Onward(t, root, cs, root, cs)
  {
    hide Walk;
  }

  lemma OnwardEnd(t: Namespace, root: nat, cs: seq<seq<byte>>, d: nat)
    requires Onward(t, root, cs, d, Components([]))
    ensures cs == [] && ParentDir(t, root, cs) == None
  {
    hide Walk;
  }

  lemma OnwardHead(t: Namespace, root: nat, cs: seq<seq<byte>>, d: nat, comp: seq<byte>, rest: seq<seq<byte>>)
    requires Onward(t, root, cs, d, [comp] + rest)
    ensures cs != []
    ensures rest == [] ==> FinalName(cs) == comp && ParentDir(t, root, cs) == Some(d)
    ensures NoDots([comp] + rest) ==> !IsDot(comp) && NoDots(rest)
  {
    assert ([comp] + rest)[0] == comp && ([comp] + rest)[1..] == rest;
    assert forall i | 0 <= i < |rest| :: rest[i] == ([comp] + rest)[i + 1];
  }

  /** One step down: the walk goes on from the child, or has failed. */
  lemma OnwardNext(t: Namespace, root: nat, cs: seq<seq<byte>>, d: nat, comp: seq<byte>, rest: seq<seq<byte>>)
    requires Onward(t, root, cs, d, [comp] + rest) && rest != []
    ensures if Key(d, comp) in t && t[Key(d, comp)].Dir? then Onward(t, root, cs, t[Key(d, comp)].head, rest)
            else ParentDir(t, root, cs) == None
  {
    var rem := [comp] + rest;
    var init := rem[..|rem| - 1];
    assert init[0] == comp && init[1..] == rest[..|rest| - 1];
    assert FinalName(rem) == FinalName(rest);
  }

  /** A text lookup decides membership in the tree and tells directories from files. */
  lemma LookedUp(v: Vol, lay: Layout, k: Key, found: bool, start: nat, size: nat, isDir: bool)
    requires Wf(v, lay) && (found <==> Entry(lay, k)) && (found ==> FoundAs(v, lay, k, start, size, isDir))
    ensures found <==> k in Tree(v, lay)
    ensures found && isDir ==> Tree(v, lay)[k] == Dir(start) && start >= 2 && start in lay.names
    ensures found && !isDir ==> Tree(v, lay)[k] == File(size, ChainBytes(v, lay, start))
    ensures found && !isDir ==> start == 0 || (start >= 2 && start in lay.chains)
  {
    hide WfChains, WfDirs, Unique, ChainBytes, StartOf, SizeOf;
    if found { assert RefOk(v, lay, EntrySlot(v, lay, k)); }
  }

  lemma FinalNotDot(cs: seq<seq<byte>>)
    requires cs != [] && NoDots(cs)
    ensures !IsDot(FinalName(cs))
  {
  }

  function MkdirComponents(path: CString): seq<seq<byte>> {
    Components(if path != [] && path[0] == SLASH then path[1..] else path)
  }

  /** Each acceptable component is canonical, so the slot written for it reads back as the component itself. */
  predicate PacksFaithfully(cs: seq<seq<byte>>) {
    forall i | 0 <= i < |cs| :: Accepted(cs[i]) ==> Canonical(cs[i])
  }

  lemma PackedBack(path: CString, i: nat)
    requires PacksFaithfully(MkdirComponents(path)) && i < |MkdirComponents(path)| && Accepted(MkdirComponents(path)[i])
    ensures Dotted(Pack(MkdirComponents(path)[i])) == MkdirComponents(path)[i]
  {
    hide Components, Accepted, Canonical, Pack, Dotted, UpperAll;
    ComponentsUpper(if path != [] && path[0] == SLASH then path[1..] else path, i);
    PackRoundTrip(MkdirComponents(path)[i]);
  }

  lemma SplitStep(cs: seq<seq<byte>>, done: seq<seq<byte>>, comp: seq<byte>, rest: seq<seq<byte>>)
    requires cs == done + ([comp] + rest)
    ensures cs == done + [comp] + rest && |done| < |cs| && cs[|done|] == comp
    ensures NoDots(cs) ==> !IsDot(comp)
  {
  }

  lemma AllDone(cs: seq<seq<byte>>, done: seq<seq<byte>>)
    requires cs == done + Components([])
    ensures cs == done
  {
  }

  lemma MoreSame(t: Namespace)
    ensures MoreDirs(t, t)
  {
  }

  lemma MoreAdd(t0: Namespace, t: Namespace, t2: Namespace, k: Key, h: nat)
    requires MoreDirs(t0, t) && k !in t && t2 == t[k := Dir(h)]
    ensures MoreDirs(t0, t2) && MoreDirs(t, t2)
  {
  }

  /** Why a directory path cannot be made: at some component there is a file, or there is nothing and the
      component is an inner one that may not be created, has no short name, or finds no space. */
  ghost predicate Blocked(t: Namespace, root: nat, cs: seq<seq<byte>>, parents: bool, full: bool) {
    exists i | 0 <= i < |cs| :: BlockedAt(t, root, cs, i, parents, full)
  }

  ghost predicate BlockedAt(t: Namespace, root: nat, cs: seq<seq<byte>>, i: nat, parents: bool, full: bool)
    requires i < |cs|
  {
    match Walk(t, root, cs[..i])
    case None => false
    case Some(d) =>
      if Key(d, cs[i]) in t then t[Key(d, cs[i])].File?
      else (!parents && i + 1 < |cs|) || !Accepted(cs[i]) || full
  }

  lemma BlockedHere(t: Namespace, root: nat, cs: seq<seq<byte>>, done: seq<seq<byte>>, comp: seq<byte>,
                    rest: seq<seq<byte>>, d: nat, parents: bool, full: bool)
    requires cs == done + [comp] + rest && Walk(t, root, done) == Some(d)
    requires if Key(d, comp) in t then t[Key(d, comp)].File? else (!parents && rest != []) || !Accepted(comp) || full
    ensures Blocked(t, root, cs, parents, full)
  {
    hide Walk, Accepted;
    assert cs[..|done|] == done && cs[|done|] == comp;
    assert BlockedAt(t, root, cs, |done|, parents, full);
  }
}
