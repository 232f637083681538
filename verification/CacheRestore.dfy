/** Transactional publication of a staged cache restore (internal/cache/cache.go). */
module CacheRestore {
  import opened Strings
  import opened Base64
  import opened Contexts

  /** A path below a root, as its names; the root itself is the empty path and always a directory. */
  type Path = seq<Text>
  datatype Node = Dir | File(bytes: Text) | Special
  type Tree = map<Path, Node>

  function Parent(p: Path): Path
    requires p != []
  {
    p[..|p| - 1]
  }

  predicate IsDir(t: Tree, p: Path) {
    p == [] || (p in t && t[p].Dir?)
  }

  /** Everything lies in a directory. */
  ghost predicate Closed(t: Tree) {
    forall p | p in t :: p != [] && IsDir(t, Parent(p))
  }

  /** All ancestors of a path in a tree are directories. */
  lemma {:induction false} AncestorIsDir(t: Tree, p: Path, a: Path)
    requires Closed(t) && p in t && a < p
    ensures IsDir(t, a)
    decreases |p|
  {
    var q := Parent(p);
    if a != q {
      assert a < q;
      AncestorIsDir(t, q, a);
    }
  }

  // ---- The file system, any operation of which may fail ------------------------------------------

  datatype Probe = Present(node: Node) | Missing | ProbeFailed

  /** Something above `p` is no directory. */
  ghost predicate Blocked(t: Tree, p: Path) {
    exists i :: 0 < i < |p| && p[..i] in t && !t[p[..i]].Dir?
  }

  /**
   The workspace and the staging tree beside it; nobody else writes to either.
   `faults` counts failed operations, `probeFaults` failed Lstats.
   */
  class FileSystem {
    var ws: Tree
    var stage: Tree
    ghost var faults: nat
    ghost var probeFaults: nat

    /** os.Lstat below the workspace. A name below something that is no directory is an error. */
    method Lstat(p: Path) returns (r: Probe)
      modifies `probeFaults
      ensures r.Present? ==> p in ws && r.node == ws[p]
      ensures r.Missing? ==> p !in ws
      ensures probeFaults == old(probeFaults) || (r.ProbeFailed? && probeFaults == old(probeFaults) + 1)
      ensures r.ProbeFailed? && probeFaults == old(probeFaults) ==> Blocked(ws, p)
    {
      var fails: bool := *;
      if fails {
        probeFaults := probeFaults + 1;
        return ProbeFailed;
      }
      if p in ws {
        return Present(ws[p]);
      }
      var i := 1;
      while i < |p|
        invariant 1 <= i
      {
        if p[..i] in ws && !ws[p[..i]].Dir? {
          return ProbeFailed;
        }
        i := i + 1;
      }
      r := Missing;
    }

    /** Something that may fail. */
    method Attempt() returns (ok: bool)
      modifies `faults
      ensures faults == if ok then old(faults) else old(faults) + 1
    {
      ok := *;
      faults := if ok then faults else faults + 1;
    }

    /** safefs.OpenRootBeneath and Close: missing components are created one at a time. */
    method OpenBeneath(dir: Path) returns (ok: bool)
      modifies `ws, `faults
      ensures (forall i | 0 < i <= |dir| :: IsDir(old(ws), dir[..i])) ==> ws == old(ws) && (!ok ==> faults > old(faults))
      ensures ok ==> faults == old(faults) && forall i | 0 < i <= |dir| :: IsDir(ws, dir[..i])
      ensures faults >= old(faults)
    {
      var i := 1;
      while i <= |dir|
        invariant 1 <= i && faults == old(faults)
        invariant (forall j | 0 < j <= |dir| :: IsDir(old(ws), dir[..j])) ==> ws == old(ws)
        invariant forall j | 0 < j < i && j <= |dir| :: IsDir(ws, dir[..j])
        decreases |dir| + 1 - i
      {
        ok := Attempt();
        if !ok {
          return;
        }
        if dir[..i] in ws {
          if !ws[dir[..i]].Dir? {
            return false;
          }
        } else {
          assert !IsDir(old(ws), dir[..i]) || ws != old(ws);
          ws := ws[dir[..i] := Dir];
        }
        i := i + 1;
      }
      ok := Attempt();
    }

    method Mkdir(p: Path) returns (ok: bool)
      modifies `ws, `faults
      ensures ok ==> p !in old(ws) && ws == old(ws)[p := Dir] && faults == old(faults)
      ensures !ok ==> ws == old(ws) && (p in ws || faults > old(faults))
      ensures faults >= old(faults)
    {
      ok := Attempt();
      if !ok || p in ws {
        return false;
      }
      ws := ws[p := Dir];
    }

    /** os.Rename of a staged file. It replaces whatever is no directory at the destination. */
    method Rename(p: Path) returns (ok: bool)
      modifies `ws, `stage, `faults
      ensures ok ==> p in old(stage) && ws == old(ws)[p := old(stage)[p]] && stage == old(stage) - {p} && faults == old(faults)
      ensures !ok ==> ws == old(ws) && stage == old(stage) && (p !in stage || (p in ws && ws[p].Dir?) || faults > old(faults))
      ensures faults >= old(faults)
    {
      ok := Attempt();
      if !ok || p !in stage || (p in ws && ws[p].Dir?) {
        return false;
      }
      ws, stage := ws[p := stage[p]], stage - {p};
    }

    /** os.Remove; a path that is already gone counts as removed. */
    method Remove(p: Path) returns (ok: bool)
      modifies `ws, `faults
      ensures faults == if ok then old(faults) else old(faults) + 1
      ensures ws == if ok then old(ws) - {p} else old(ws)
    {
      ok := Attempt();
      if ok {
        ws := ws - {p};
      }
    }

    /** os.RemoveAll; a failure may come after part of the subtree is gone. */
    method RemoveAll(p: Path) returns (ok: bool)
      modifies `ws, `faults
      ensures faults == if ok then old(faults) else old(faults) + 1
      ensures forall q | q in ws :: q in old(ws) && ws[q] == old(ws)[q]
      ensures forall q | q in old(ws) && !(p <= q) :: q in ws
      ensures ok ==> forall q | q in ws :: !(p <= q)
    {
      var gone: set<Path> := *;
      var below := set q | q in ws && p <= q;
      ok := Attempt();
      ws := ws - (if ok then below else below * gone);
    }
  }

  // ---- Walking the staging tree -----------------------------------------------------------------

  datatype StagedEntry = StagedEntry(rel: Path, isDir: bool)

  /** The entries name paths of `t`, each once, with what they are. */
  ghost predicate Names(t: Tree, entries: seq<StagedEntry>) {
    && (forall i | 0 <= i < |entries| :: entries[i].rel in t && !t[entries[i].rel].Special? && entries[i].isDir == t[entries[i].rel].Dir?)
    && (forall i, j | 0 <= i < j < |entries| :: entries[i].rel != entries[j].rel)
  }

  /** Every directory precedes what lies in it. */
  ghost predicate ParentFirst(base: Path, entries: seq<StagedEntry>) {
    forall i | 0 <= i < |entries| && entries[i].rel != [] && Parent(entries[i].rel) != base ::
      Listed(entries[..i], Parent(entries[i].rel))
  }

  ghost predicate Listed(entries: seq<StagedEntry>, p: Path) {
    exists i :: 0 <= i < |entries| && entries[i].rel == p
  }

  function Below(t: Tree, dir: Path): (r: set<Path>) {
    set p | p in t && dir < p
  }

  /** `p` lies below `dir`, in a child that is not in `todo`. */
  predicate Covered(t: Tree, dir: Path, todo: set<Path>, p: Path) {
    p in t && dir < p && p[..|dir| + 1] !in todo
  }

  /** The entries are exactly what lies below `dir` in the children outside `todo`, parents first. */
  ghost predicate Walked(t: Tree, dir: Path, todo: set<Path>, entries: seq<StagedEntry>) {
    && Names(t, entries) && ParentFirst(dir, entries)
    && (forall p :: Listed(entries, p) <==> Covered(t, dir, todo, p))
  }

  lemma SubtreeNames(t: Tree, dir: Path, todo: set<Path>, out: seq<StagedEntry>, c: StagedEntry, sub: seq<StagedEntry>)
    requires Walked(t, dir, todo, out) && Walked(t, c.rel, {}, sub)
    requires c.rel in todo && c.rel in t && dir < c.rel && |c.rel| == |dir| + 1 && !t[c.rel].Special? && c.isDir == t[c.rel].Dir?
    ensures Names(t, out + [c] + sub)
  {
    var all := out + [c] + sub;
    forall i | 0 <= i < |sub| ensures c.rel < sub[i].rel && sub[i].rel[..|dir| + 1] == c.rel {
      assert Listed(sub, sub[i].rel);
    }
    forall i | 0 <= i < |out| ensures dir < out[i].rel && out[i].rel[..|dir| + 1] != c.rel {
      assert Listed(out, out[i].rel);
    }
    forall i, j | 0 <= i < j < |all| ensures all[i].rel != all[j].rel {
      if i < |out| && j == |out| {
        assert all[j].rel[..|dir| + 1] == c.rel;
      }
    }
  }

  lemma ListedConcat(out: seq<StagedEntry>, c: StagedEntry, sub: seq<StagedEntry>, p: Path)
    ensures Listed(out + [c] + sub, p) <==> Listed(out, p) || p == c.rel || Listed(sub, p)
  {
    var all := out + [c] + sub;
    if Listed(out, p) {
      var i :| 0 <= i < |out| && out[i].rel == p;
      assert all[i].rel == p;
    }
    if p == c.rel {
      assert all[|out|].rel == p;
    }
    if Listed(sub, p) {
      var i :| 0 <= i < |sub| && sub[i].rel == p;
      assert all[|out| + 1 + i].rel == p;
    }
  }

  lemma SubtreeParentAt(dir: Path, out: seq<StagedEntry>, c: StagedEntry, sub: seq<StagedEntry>, i: nat)
    requires ParentFirst(dir, out) && ParentFirst(c.rel, sub) && c.rel != [] && Parent(c.rel) == dir
    requires i < |out + [c] + sub| && (out + [c] + sub)[i].rel != [] && Parent((out + [c] + sub)[i].rel) != dir
    ensures Listed((out + [c] + sub)[..i], Parent((out + [c] + sub)[i].rel))
  {
    var all := out + [c] + sub;
    var p := Parent(all[i].rel);
    if i < |out| {
      assert all[..i] == out[..i];
    } else {
      var k := i - |out| - 1;
      assert all[i] == sub[k] && all[..i] == out + [c] + sub[..k];
      ListedConcat(out, c, sub[..k], p);
    }
  }

  lemma SubtreeParents(dir: Path, out: seq<StagedEntry>, c: StagedEntry, sub: seq<StagedEntry>)
    requires ParentFirst(dir, out) && ParentFirst(c.rel, sub) && c.rel != [] && Parent(c.rel) == dir
    ensures ParentFirst(dir, out + [c] + sub)
  {
    hide Listed;
    var all := out + [c] + sub;
    forall i | 0 <= i < |all| && all[i].rel != [] && Parent(all[i].rel) != dir
      ensures Listed(all[..i], Parent(all[i].rel))
    {
      SubtreeParentAt(dir, out, c, sub, i);
    }
  }

  lemma SubtreeWalked(t: Tree, dir: Path, todo: set<Path>, out: seq<StagedEntry>, c: StagedEntry, sub: seq<StagedEntry>)
    requires Walked(t, dir, todo, out) && Walked(t, c.rel, {}, sub)
    requires c.rel in todo && c.rel in t && dir < c.rel && |c.rel| == |dir| + 1 && !t[c.rel].Special? && c.isDir == t[c.rel].Dir?
    ensures Walked(t, dir, todo - {c.rel}, out + [c] + sub)
  {
    SubtreeNames(t, dir, todo, out, c, sub);
    SubtreeParents(dir, out, c, sub);
    forall p ensures Listed(out + [c] + sub, p) <==> Covered(t, dir, todo - {c.rel}, p) {
      ListedConcat(out, c, sub, p);
      assert c.rel[..|dir| + 1] == c.rel;
      assert c.rel < p ==> p[..|dir| + 1] == c.rel;
      assert dir < p && p[..|dir| + 1] == c.rel && p != c.rel ==> c.rel < p;
    }
  }

  lemma ChildOnTheWay(t: Tree, dir: Path, p: Path)
    requires Closed(t) && p in t && dir < p
    ensures var c := p[..|dir| + 1]; c in t && dir < c && |c| == |dir| + 1
  {
    var c := p[..|dir| + 1];
    assert dir < c;
    if c == p {
    } else {
      AncestorIsDir(t, p, c);
    }
  }

  function Children(t: Tree, dir: Path): (r: set<Path>) {
    set p | p in t && dir < p && |p| == |dir| + 1
  }

  lemma WalkStart(t: Tree, dir: Path)
    requires Closed(t)
    ensures Walked(t, dir, Children(t, dir), [])
  {
    forall p ensures !Covered(t, dir, Children(t, dir), p) {
      if p in t && dir < p {
        ChildOnTheWay(t, dir, p);
      }
    }
  }

  lemma BelowShrinks(t: Tree, dir: Path, c: Path)
    requires c in t && dir < c
    ensures Below(t, c) < Below(t, dir)
  {
    assert c in Below(t, dir) && c !in Below(t, c);
  }

  /**
   collectStagedEntries below `dir`: all entries, parents first. It gives up only
   when something cannot be read or is neither a directory nor a regular file.
   */
  method Walk(fs: FileSystem, t: Tree, dir: Path) returns (r: Option<seq<StagedEntry>>)
    requires Closed(t)
    modifies fs`faults
    ensures fs.faults >= old(fs.faults)
    ensures r.Some? ==> fs.faults == old(fs.faults) && Walked(t, dir, {}, r.value)
    ensures r.None? && fs.faults == old(fs.faults) ==> exists p :: p in t && dir < p && t[p].Special?
    decreases Below(t, dir)
  {
    var readable := fs.Attempt();
    if !readable {
      return None;
    }
    var out: seq<StagedEntry> := [];
    var todo := Children(t, dir);
    WalkStart(t, dir);
    hide Walked, Closed, Below;
    while todo != {}
      invariant forall c | c in todo :: c in t && dir < c && |c| == |dir| + 1
      invariant Walked(t, dir, todo, out) && fs.faults == old(fs.faults)
      decreases todo
    {
      var c :| c in todo;
      var measured := fs.Attempt();
      if !measured {
        return None;
      }
      if t[c].Special? {
        return None;
      }
      var sub: seq<StagedEntry> := [];
      if t[c].Dir? {
        BelowShrinks(t, dir, c);
        var s := Walk(fs, t, c);
        if s.None? {
          return None;
        }
        sub := s.value;
      } else {
        FileIsLeaf(t, c);
      }
      SubtreeWalked(t, dir, todo, out, StagedEntry(c, t[c].Dir?), sub);
      out := out + [StagedEntry(c, t[c].Dir?)] + sub;
      todo := todo - {c};
    }
    r := Some(out);
  }

  lemma FileIsLeaf(t: Tree, c: Path)
    requires Closed(t) && c in t && !t[c].Dir? && c != []
    ensures Walked(t, c, {}, [])
  {
    forall p ensures !Covered(t, c, {}, p) {
      if p in t && c < p {
        AncestorIsDir(t, p, c);
      }
    }
  }

  // ---- Publishing and rolling back -----------------------------------------------------------------

  datatype Outcome = Published | Failed | Residue(remaining: seq<Path>)

  /** Everything that was there is still there, unchanged. */
  ghost predicate Keeps(before: Tree, after: Tree) {
    forall p | p in before :: p in after && after[p] == before[p]
  }

  /** Nothing is there beyond what was there before and what `created` lists. */
  ghost predicate OnlyAdds(before: Tree, after: Tree, created: seq<StagedEntry>) {
    forall p | p in after && p !in before :: Listed(created, p)
  }

  /** Nothing that was there lies at or below a created path. */
  ghost predicate Apart(before: Tree, created: seq<StagedEntry>) {
    forall i, p | 0 <= i < |created| && p in before :: !(created[i].rel <= p)
  }

  /** Nothing above a created path is anything but a directory. */
  ghost predicate Open(ws: Tree, created: seq<StagedEntry>) {
    forall i | 0 <= i < |created| :: !Blocked(ws, created[i].rel)
  }

  /** How many of the paths are not in the tree. */
  function Wrong(paths: seq<Path>, t: Tree): (n: nat)
    ensures n == 0 ==> forall p | p in paths :: p in t
  {
    if paths == [] then 0
    else
      var last := paths[|paths| - 1];
      assert forall p | p in paths :: p == last || p in paths[..|paths| - 1];
      Wrong(paths[..|paths| - 1], t) + (if last in t then 0 else 1)
  }

  lemma WrongMore(paths: seq<Path>, p: Path, t: Tree)
    ensures Wrong(paths + [p], t) == Wrong(paths, t) + (if p in t then 0 else 1)
  {
    assert (paths + [p])[..|paths|] == paths;
  }

  /**
   The rollback: remove what was created, newest first, then see what survived. A
   path is reported wrongly only when its probe failed, and nothing is reported
   when every removal works.
   */
  method Rollback(fs: FileSystem, created: seq<StagedEntry>, ghost before: Tree) returns (remaining: seq<Path>)
    requires Keeps(before, fs.ws) && OnlyAdds(before, fs.ws, created) && Apart(before, created) && Open(fs.ws, created)
    modifies fs`ws, fs`faults, fs`probeFaults
    ensures Keeps(before, fs.ws)
    ensures forall p | p in fs.ws && p !in before :: p in remaining && Listed(created, p)
    ensures forall p | p in remaining :: Listed(created, p)
    ensures fs.faults >= old(fs.faults) && fs.probeFaults >= old(fs.probeFaults)
    ensures fs.faults == old(fs.faults) ==> remaining == []
    ensures Wrong(remaining, fs.ws) <= fs.probeFaults - old(fs.probeFaults)
  {
    var failed := RemoveCreated(fs, created, before);
    remaining := [];
    ghost var (end, faults) := (fs.ws, fs.faults);
    var k := 0;
    while k < |failed|
      invariant 0 <= k <= |failed| && fs.ws == end && fs.faults == faults && fs.probeFaults >= old(fs.probeFaults)
      invariant forall p | p in failed[..k] && p in fs.ws :: p in remaining
      invariant forall p | p in remaining :: p in failed
      invariant Wrong(remaining, fs.ws) <= fs.probeFaults - old(fs.probeFaults)
    {
      var probe := fs.Lstat(failed[k]);
      if !probe.Missing? {
        WrongMore(remaining, failed[k], fs.ws);
        OpenAt(fs.ws, created, failed[k]);
        remaining := remaining + [failed[k]];
      }
      k := k + 1;
    }
  }

  /** Nothing is there at `dir` or below it. */
  ghost predicate Emptied(ws: Tree, dir: Path) {
    forall q | q in ws :: !(dir <= q)
  }

  /**
   Newest first, a created directory with everything below it. What is below one
   that could be removed is gone, even where its own removal failed.
   */
  method RemoveCreated(fs: FileSystem, created: seq<StagedEntry>, ghost before: Tree) returns (failed: seq<Path>)
    requires Keeps(before, fs.ws) && OnlyAdds(before, fs.ws, created) && Apart(before, created) && Open(fs.ws, created)
    modifies fs`ws, fs`faults
    ensures Keeps(before, fs.ws) && OnlyAdds(before, fs.ws, created) && Open(fs.ws, created)
    ensures forall p | p in fs.ws && p !in before :: p in failed
    ensures forall p | p in failed :: Listed(created, p)
    ensures forall j | 0 <= j < |created| && created[j].isDir && created[j].rel !in failed :: Emptied(fs.ws, created[j].rel)
    ensures fs.faults >= old(fs.faults) && (fs.faults == old(fs.faults) ==> failed == [])
  {
    failed := [];
    var i := |created|;
    while i > 0
      invariant 0 <= i <= |created|
      invariant Keeps(before, fs.ws) && OnlyAdds(before, fs.ws, created) && Open(fs.ws, created)
      invariant forall j | i <= j < |created| :: created[j].rel in fs.ws ==> created[j].rel in failed
      invariant forall p | p in failed :: Listed(created, p)
      invariant forall j | i <= j < |created| && created[j].isDir && created[j].rel !in failed :: Emptied(fs.ws, created[j].rel)
      invariant fs.faults >= old(fs.faults) && (fs.faults == old(fs.faults) ==> failed == [])
    {
      i := i - 1;
      ghost var was := fs.ws;
      var p, ok := created[i].rel, false;
      if created[i].isDir {
        ok := fs.RemoveAll(p);
      } else {
        assert p !in before;
        ok := fs.Remove(p);
      }
      StaysOpen(was, fs.ws, created);
      if !ok {
        failed := failed + [p];
      }
    }
  }

  lemma OpenAt(ws: Tree, created: seq<StagedEntry>, p: Path)
    requires Open(ws, created) && Listed(created, p)
    ensures !Blocked(ws, p)
  {
    var i :| 0 <= i < |created| && created[i].rel == p;
    assert !Blocked(ws, created[i].rel);
  }

  lemma StaysOpen(ws: Tree, fewer: Tree, created: seq<StagedEntry>)
    requires Open(ws, created) && forall q | q in fewer :: q in ws && fewer[q] == ws[q]
    ensures Open(fewer, created)
  {
    forall i | 0 <= i < |created| ensures !Blocked(fewer, created[i].rel) {
      assert !Blocked(ws, created[i].rel);
    }
  }

  /** Only a staged directory may meet something: a directory. */
  ghost predicate Clear(ws: Tree, entries: seq<StagedEntry>) {
    forall i | 0 <= i < |entries| && entries[i].rel in ws :: entries[i].isDir && ws[entries[i].rel].Dir?
  }

  /** What blocks an entry is itself in the way of one. */
  lemma BlockedIsNotClear(stage: Tree, entries: seq<StagedEntry>, ws: Tree, i: nat)
    requires Closed(stage) && Walked(stage, [], {}, entries) && i < |entries| && Blocked(ws, entries[i].rel)
    ensures !Clear(ws, entries)
  {
    var p := entries[i].rel;
    var k :| 0 < k < |p| && p[..k] in ws && !ws[p[..k]].Dir?;
    AncestorIsDir(stage, p, p[..k]);
    assert Covered(stage, [], {}, p[..k]);
    var j :| 0 <= j < |entries| && entries[j].rel == p[..k];
  }

  /** The pre-check, before anything moves. */
  method PreCheck(fs: FileSystem, entries: seq<StagedEntry>) returns (ok: bool)
    requires Closed(fs.stage) && Walked(fs.stage, [], {}, entries)
    modifies fs`probeFaults
    ensures ok ==> Clear(fs.ws, entries) && fs.probeFaults == old(fs.probeFaults)
    ensures !ok && fs.probeFaults == old(fs.probeFaults) ==> !Clear(fs.ws, entries)
    ensures fs.probeFaults >= old(fs.probeFaults)
  {
    var i := 0;
    hide Walked;
    while i < |entries|
      invariant 0 <= i <= |entries| && fs.probeFaults == old(fs.probeFaults)
      invariant forall j | 0 <= j < i && entries[j].rel in fs.ws :: entries[j].isDir && fs.ws[entries[j].rel].Dir?
    {
      var probe := fs.Lstat(entries[i].rel);
      if probe.ProbeFailed? {
        if fs.probeFaults == old(fs.probeFaults) {
          BlockedIsNotClear(fs.stage, entries, fs.ws, i);
        }
        return false;
      }
      if probe.Present? && !(entries[i].isDir && probe.node.Dir?) {
        return false;
      }
      i := i + 1;
    }
    ok := true;
  }

  /** The first `k` entries have been published on top of `before`. */
  ghost predicate PublishedTo(before: Tree, stage: Tree, entries: seq<StagedEntry>, k: nat, ws: Tree) {
    && k <= |entries|
    && (forall p :: p in ws <==> p in before || Listed(entries[..k], p))
    && (forall p | p in ws :: if p in before then ws[p] == before[p] else p in stage && ws[p] == stage[p])
  }

  /** `created` is what the first `k` entries added. */
  ghost predicate CreatedBy(before: Tree, entries: seq<StagedEntry>, k: nat, created: seq<StagedEntry>) {
    k <= |entries| && forall p :: Listed(created, p) <==> Listed(entries[..k], p) && p !in before
  }

  lemma ListedNext(entries: seq<StagedEntry>, k: nat, p: Path)
    requires k < |entries|
    ensures Listed(entries[..k + 1], p) <==> Listed(entries[..k], p) || p == entries[k].rel
  {
    var (a, b) := (entries[..k], entries[..k + 1]);
    if Listed(a, p) {
      var i :| 0 <= i < |a| && a[i].rel == p;
      assert b[i].rel == p;
    }
    assert b[k] == entries[k];
  }

  lemma CreatedAreApart(before: Tree, entries: seq<StagedEntry>, k: nat, created: seq<StagedEntry>)
    requires Closed(before) && CreatedBy(before, entries, k, created)
    requires forall i | 0 <= i < |entries| :: entries[i].rel != []
    ensures Apart(before, created)
  {
    forall i, p | 0 <= i < |created| && p in before ensures !(created[i].rel <= p) {
      var c := created[i].rel;
      assert Listed(created, c) && Listed(entries[..k], c);
      if c < p {
        AncestorIsDir(before, p, c);
      }
    }
  }

  /** When the turn of an entry comes, the directory it goes into is there. */
  lemma ParentIsThere(before: Tree, stage: Tree, entries: seq<StagedEntry>, k: nat, ws: Tree)
    requires Closed(stage) && Walked(stage, [], {}, entries) && Clear(before, entries) && k < |entries|
    requires PublishedTo(before, stage, entries, k, ws) && Closed(ws)
    ensures entries[k].rel != [] && entries[k].rel in stage && IsDir(ws, Parent(entries[k].rel))
    ensures forall i | 0 < i <= |Parent(entries[k].rel)| :: IsDir(ws, Parent(entries[k].rel)[..i])
  {
    var p := Parent(entries[k].rel);
    assert IsDir(stage, p);
    if p != [] {
      assert Listed(entries[..k], p);
      var j :| 0 <= j < k && entries[..k][j].rel == p;
      assert entries[j].rel == p;
      forall i | 0 < i <= |p| ensures IsDir(ws, p[..i]) {
        if i < |p| {
          AncestorIsDir(ws, p, p[..i]);
        } else {
          assert p[..i] == p;
        }
      }
    }
  }

  /** An entry whose path is taken was merged; one whose path is free can be added. */
  lemma NextEntry(before: Tree, stage: Tree, entries: seq<StagedEntry>, k: nat, created: seq<StagedEntry>, ws: Tree)
    requires k < |entries| && Names(stage, entries) && Clear(before, entries)
    requires PublishedTo(before, stage, entries, k, ws) && CreatedBy(before, entries, k, created)
    ensures var (e, p) := (entries[k], entries[k].rel);
            && (p in ws <==> p in before)
            && (p in ws ==> PublishedTo(before, stage, entries, k + 1, ws) && CreatedBy(before, entries, k + 1, created))
            && (p !in ws ==> PublishedTo(before, stage, entries, k + 1, ws[p := stage[p]]) &&
                             CreatedBy(before, entries, k + 1, created + [e]))
  {
    var (e, p) := (entries[k], entries[k].rel);
    assert !Listed(entries[..k], p);
    forall q ensures Listed(entries[..k + 1], q) <==> Listed(entries[..k], q) || q == p {
      ListedNext(entries, k, q);
    }
    forall q ensures Listed(created + [e], q) <==> Listed(created, q) || q == p {
      ListedConcat(created, e, [], q);
      assert created + [e] + [] == created + [e];
    }
  }

  lemma AddedStaysClosed(ws: Tree, p: Path, node: Node)
    requires Closed(ws) && p != [] && p !in ws && IsDir(ws, Parent(p))
    ensures Closed(ws[p := node])
  {
    forall q | q in ws[p := node] ensures q != [] && IsDir(ws[p := node], Parent(q)) {
      assert Parent(q) != p || q == p || p in ws;
    }
  }

  lemma AllPublished(before: Tree, stage: Tree, entries: seq<StagedEntry>, created: seq<StagedEntry>, ws: Tree, left: Tree)
    requires Ready(before, stage, entries) && Progress(before, stage, entries, |entries|, created, ws, left)
    ensures ws == before + stage && Keeps(before, ws)
  {
    assert entries[..|entries|] == entries;
    forall p ensures p in stage <==> Listed(entries, p) {
      assert Covered(stage, [], {}, p) <==> p in stage;
    }
    forall p | p in before && p in stage ensures before[p] == stage[p] {
      var i :| 0 <= i < |entries| && entries[i].rel == p;
      assert entries[i].isDir;
    }
  }

  lemma ClosedIsOpen(before: Tree, stage: Tree, entries: seq<StagedEntry>, k: nat, created: seq<StagedEntry>, ws: Tree, left: Tree)
    requires Progress(before, stage, entries, k, created, ws, left)
    ensures Open(ws, created)
  {
    forall i | 0 <= i < |created| ensures !Blocked(ws, created[i].rel) {
      var p := created[i].rel;
      assert Listed(created, p) && p in ws;
      forall n | 0 < n < |p| ensures !(p[..n] in ws && !ws[p[..n]].Dir?) {
        AncestorIsDir(ws, p, p[..n]);
      }
    }
  }

  lemma CreatedIsUndoable(before: Tree, stage: Tree, entries: seq<StagedEntry>, k: nat, created: seq<StagedEntry>, ws: Tree, left: Tree)
    requires Ready(before, stage, entries) && Progress(before, stage, entries, k, created, ws, left)
    ensures Keeps(before, ws) && OnlyAdds(before, ws, created) && Apart(before, created)
    ensures forall p | Listed(created, p) :: p in stage && p !in before
  {
    CreatedAreApart(before, entries, k, created);
    forall p | Listed(created, p) ensures p in stage && p !in before {
      var i :| 0 <= i < |entries[..k]| && entries[..k][i].rel == p;
      assert entries[i].rel == p;
    }
  }

  /** What a failed publication leaves behind. */
  twostate predicate RolledBack(fs: FileSystem, r: Outcome, before: Tree, stage: Tree)
    reads fs
  {
    && r != Published && Keeps(before, fs.ws) && (r == Failed ==> fs.ws == before)
    && (r.Residue? ==>
          && r.remaining != [] && fs.faults > old(fs.faults)
          && (forall p | p in fs.ws && p !in before :: p in r.remaining)
          && (forall p | p in r.remaining :: p in stage && p !in before)
          && Wrong(r.remaining, fs.ws) <= fs.probeFaults - old(fs.probeFaults))
  }

  /** Roll back and report. */
  method Fail(fs: FileSystem, ghost entries: seq<StagedEntry>, ghost k: nat, created: seq<StagedEntry>,
              ghost before: Tree, ghost stage: Tree, ghost left: Tree)
    returns (r: Outcome)
    requires Ready(before, stage, entries) && Progress(before, stage, entries, k, created, fs.ws, left)
    modifies fs`ws, fs`faults, fs`probeFaults
    ensures RolledBack(fs, r, before, stage)
    ensures fs.faults >= old(fs.faults) && fs.probeFaults >= old(fs.probeFaults)
  {
    hide Ready, Progress, Open, Apart, Listed, OnlyAdds;
    ClosedIsOpen(before, stage, entries, k, created, fs.ws, left);
    CreatedIsUndoable(before, stage, entries, k, created, fs.ws, left);
    var remaining := Rollback(fs, created, before);
    r := if remaining == [] then Failed else Residue(remaining);
  }

  /** The state of the publish loop before entry `k`. */
  ghost predicate Progress(before: Tree, staged: Tree, entries: seq<StagedEntry>, k: nat, created: seq<StagedEntry>,
                           ws: Tree, stage: Tree)
  {
    && PublishedTo(before, staged, entries, k, ws) && CreatedBy(before, entries, k, created) && Closed(ws)
    && (forall j | k <= j < |entries| ::
          entries[j].rel in stage && entries[j].rel in staged && stage[entries[j].rel] == staged[entries[j].rel])
  }

  /** What the inputs of the loop satisfy throughout. */
  ghost predicate Ready(before: Tree, staged: Tree, entries: seq<StagedEntry>) {
    Closed(before) && Closed(staged) && Walked(staged, [], {}, entries) && Clear(before, entries)
  }

  lemma ProgressStart(before: Tree, staged: Tree, entries: seq<StagedEntry>)
    requires Ready(before, staged, entries)
    ensures Progress(before, staged, entries, 0, [], before, staged)
  {
  }

  lemma ProgressStep(before: Tree, staged: Tree, entries: seq<StagedEntry>, k: nat, created: seq<StagedEntry>, ws: Tree, stage: Tree)
    requires Ready(before, staged, entries) && k < |entries| && Progress(before, staged, entries, k, created, ws, stage)
    ensures var (e, p) := (entries[k], entries[k].rel);
            && p != [] && p in staged && p in stage && stage[p] == staged[p] && (e.isDir <==> staged[p] == Dir)
            && (forall i | 0 < i <= |Parent(p)| :: IsDir(ws, Parent(p)[..i]))
            && (p in ws ==> Progress(before, staged, entries, k + 1, created, ws, stage))
            && (p !in ws ==> Progress(before, staged, entries, k + 1, created + [e], ws[p := staged[p]], stage))
            && (p !in ws ==> Progress(before, staged, entries, k + 1, created + [e], ws[p := staged[p]], stage - {p}))
            && (p in ws ==> e.isDir && ws[p].Dir?) && !Blocked(ws, p)
  {
    var (e, p) := (entries[k], entries[k].rel);
    ParentIsThere(before, staged, entries, k, ws);
    forall i | 0 < i < |p| ensures IsDir(ws, p[..i]) {
      assert p[..i] == Parent(p)[..i];
    }
    NextEntry(before, staged, entries, k, created, ws);
    hide PublishedTo, CreatedBy;
    if p !in ws {
      AddedStaysClosed(ws, p, staged[p]);
    }
  }

  /**
   publishStaged. Success is exactly the old tree plus the staged one. Any
   failure leaves what was there untouched; a plain failure leaves the workspace
   as it was; a residue takes a failed removal on top of the failure, names every
   path left over, and names at most as many others as probes failed. When nothing
   goes wrong, the outcome is success exactly when nothing is in the way.
   */
  method PublishStaged(fs: FileSystem, entries: seq<StagedEntry>) returns (r: Outcome)
    requires Closed(fs.ws) && Closed(fs.stage) && Walked(fs.stage, [], {}, entries)
    modifies fs
    ensures r == Published ==> fs.ws == old(fs.ws) + old(fs.stage) && Keeps(old(fs.ws), fs.ws) && Clear(old(fs.ws), entries)
    ensures r != Published ==> RolledBack(fs, r, old(fs.ws), old(fs.stage))
    ensures fs.faults >= old(fs.faults) && fs.probeFaults >= old(fs.probeFaults)
    ensures fs.faults == old(fs.faults) && fs.probeFaults == old(fs.probeFaults) ==> (r == Published <==> Clear(old(fs.ws), entries))
    ensures r.Residue? ==> fs.faults + fs.probeFaults >= old(fs.faults + fs.probeFaults) + 2
  {
    hide Closed, Walked, Clear, Progress, Keeps, IsDir;
    ghost var (before, stage) := (fs.ws, fs.stage);
    var ok := PreCheck(fs, entries);
    if !ok {
      KeepsItself(before);
      return Failed;
    }
    ProgressStart(before, stage, entries);
    var created: seq<StagedEntry> := [];
    var k := 0;
    while k < |entries|
      invariant 0 <= k <= |entries| && Ready(before, stage, entries)
      invariant Progress(before, stage, entries, k, created, fs.ws, fs.stage)
      invariant fs.faults == old(fs.faults) && fs.probeFaults == old(fs.probeFaults)
    {
      var e := entries[k];
      ProgressStep(before, stage, entries, k, created, fs.ws, fs.stage);
      ok := fs.OpenBeneath(Parent(e.rel));
      if ok && e.isDir {
        var probe := fs.Lstat(e.rel);
        if probe.Present? && probe.node.Dir? {
          k := k + 1;
          continue;
        }
        ok := probe.Missing?;
        if ok {
          ok := fs.Mkdir(e.rel);
        }
      } else if ok {
        ok := fs.Rename(e.rel);
      }
      if !ok {
        assert fs.faults + fs.probeFaults > old(fs.faults + fs.probeFaults);
        r := Fail(fs, entries, k, created, before, stage, fs.stage);
        return;
      }
      created := created + [e];
      k := k + 1;
    }
    r := Published;
    AllPublished(before, stage, entries, created, fs.ws, fs.stage);
  }

  lemma KeepsItself(t: Tree)
    ensures Keeps(t, t)
  {
  }

  /** The staged tree holds only directories and files, and meets nothing but directories with directories. */
  ghost predicate Mergeable(ws: Tree, stage: Tree) {
    && (forall p | p in stage :: !stage[p].Special?)
    && (forall p | p in stage && p in ws :: stage[p].Dir? && ws[p].Dir?)
  }

  lemma ClearMeansMergeable(stage: Tree, entries: seq<StagedEntry>, ws: Tree)
    requires Closed(stage) && Walked(stage, [], {}, entries)
    ensures Clear(ws, entries) <==> Mergeable(ws, stage)
  {
    forall p | p in stage ensures !stage[p].Special? && Listed(entries, p) {
      assert Covered(stage, [], {}, p);
    }
    if Clear(ws, entries) {
      forall p | p in stage && p in ws ensures stage[p].Dir? && ws[p].Dir? {
        var i :| 0 <= i < |entries| && entries[i].rel == p;
      }
    }
  }

  /**
   The publish half of restoreLocalWithReporter: collect, give up if the job has
   ended, publish. `debts` are the residue paths reported as cleanup debt. For
   every workspace, every staging tree and every pattern of failures: the restore
   is complete, or the workspace is as it was, or every addition is in debt. When
   nothing goes wrong it is complete exactly when the trees can be merged.
   */
  method PublishRestore(ctx: Context, fs: FileSystem) returns (ok: bool, debts: seq<Path>)
    requires Closed(fs.ws) && Closed(fs.stage)
    modifies ctx, fs
    ensures Keeps(old(fs.ws), fs.ws)
    ensures ok ==> debts == [] && fs.ws == old(fs.ws) + old(fs.stage) && Mergeable(old(fs.ws), old(fs.stage))
    ensures !ok && debts == [] ==> fs.ws == old(fs.ws)
    ensures !ok ==> forall p | p in fs.ws && p !in old(fs.ws) :: p in debts
    ensures forall p | p in debts :: p in old(fs.stage) && p !in old(fs.ws)
    ensures Wrong(debts, fs.ws) <= fs.probeFaults - old(fs.probeFaults)
    ensures debts != [] ==> fs.faults + fs.probeFaults >= old(fs.faults + fs.probeFaults) + 2
    ensures fs.faults == old(fs.faults) && fs.probeFaults == old(fs.probeFaults) && !ctx.done ==>
              (ok <==> Mergeable(old(fs.ws), old(fs.stage)))
  {
    hide Closed, Walked, Clear;
    var entries := Walk(fs, fs.stage, []);
    if entries.None? {
      return false, [];
    }
    var cancelled := ctx.Err();
    if cancelled {
      return false, [];
    }
    ClearMeansMergeable(fs.stage, entries.value, fs.ws);
    var r := PublishStaged(fs, entries.value);
    match r
    case Published => return true, [];
    case Failed => return false, [];
    case Residue(remaining) => return false, remaining;
  }
}
