/**
 * The build-output locator (agent.js `findStaticOutputDir`): walks the
 * unpacked source tree a few levels deep collecting every directory that holds
 * an `index.html`, falls back to the conventional output directory names when
 * none is found, and picks the most recently modified candidate.
 *
 * The file system is a tree of entries; a directory lists its entries in the
 * order `readdir` returns them. A path is the sequence of entry names below
 * the root.
 */
module Locator {
  import opened Wrappers

  /** One directory entry: a file (no entries) or a directory, with its
      modification time. */
  datatype Node = Node(name: string, isDir: bool, mtime: int, entries: seq<Node>)

  /** A directory that may hold the build output, with its modification time. */
  datatype Candidate = Candidate(dir: seq<string>, mtime: int)

  /** Directory names the walk never enters or reports. */
  const ExcludedNames: set<string> := {"node_modules", ".git", ".next", "source", "release"}

  /** Output directories looked for directly under the root, in this order,
      when the walk found nothing. */
  const FallbackNames: seq<string> := ["dist", "build", "out", "public"]

  /** The depth the walk is started with: the root's entries and three levels
      below them are examined. */
  const WalkDepth := 3

  /** `pathExists(path.join(dir, "index.html"))`: some entry, file or directory, has that name. */
  predicate HasIndexHtml(d: Node) {
    exists i :: 0 <= i < |d.entries| && d.entries[i].name == "index.html"
  }

  /** The candidates `walk(dir, depth)` pushes, in order, for the directory
      `d` found at `path`. */
  function WalkSpec(d: Node, path: seq<string>, depth: int): seq<Candidate>
    decreases d, 1, 0
  {
    if depth < 0 then [] else EntriesUpTo(d, |d.entries|, path, depth)
  }

  /** The candidates pushed for the first `i` entries of `d`. */
  function EntriesUpTo(d: Node, i: nat, path: seq<string>, depth: int): seq<Candidate>
    requires i <= |d.entries|
    decreases d, 0, i
  {
    if i == 0 then []
    else EntriesUpTo(d, i - 1, path, depth) + EntryCandidates(d.entries[i - 1], path, depth)
  }

  /** The candidates pushed for one entry of a directory at `path`: nothing for
      a file or an excluded name; otherwise the entry itself when it holds an
      `index.html`, then what the walk one level down pushes. */
  function EntryCandidates(e: Node, path: seq<string>, depth: int): seq<Candidate>
    decreases e, 2, 0
  {
    if !e.isDir || e.name in ExcludedNames then []
    else
      var full := path + [e.name];
      (if HasIndexHtml(e) then [Candidate(full, e.mtime)] else []) + WalkSpec(e, full, depth - 1)
  }

  /** The candidates from the conventional names `FallbackNames[..k]`: each
      name some entry of the root has, file or directory, with the first
      such entry's time. */
  function FallbackUpTo(root: Node, k: nat): seq<Candidate>
    requires k <= |FallbackNames|
  {
    if k == 0 then []
    else
      FallbackUpTo(root, k - 1) +
      match FindEntry(root, FallbackNames[k - 1]) {
        case Some(i) => [Candidate([FallbackNames[k - 1]], root.entries[i].mtime)]
        case None => []
      }
  }

  /** The candidates the locator chooses from: the walk's, or, when the walk
      found none, the fallback names'. */
  function Candidates(root: Node): seq<Candidate> {
    var walked := WalkSpec(root, [], WalkDepth);
    if walked != [] then walked else FallbackUpTo(root, |FallbackNames|)
  }

  /** Index of the first entry of `d` named `name`. */
  function FindEntry(d: Node, name: string): (r: Option<nat>)
    ensures r.Some? ==> r.value < |d.entries| && d.entries[r.value].name == name &&
                        forall j :: 0 <= j < r.value ==> d.entries[j].name != name
    ensures r.None? ==> forall j :: 0 <= j < |d.entries| ==> d.entries[j].name != name
  {
    FindEntryFrom(d, name, 0)
  }

  function FindEntryFrom(d: Node, name: string, from: nat): (r: Option<nat>)
    requires from <= |d.entries|
    requires forall j :: 0 <= j < from ==> d.entries[j].name != name
    ensures r.Some? ==> from <= r.value < |d.entries| && d.entries[r.value].name == name &&
                        forall j :: 0 <= j < r.value ==> d.entries[j].name != name
    ensures r.None? ==> forall j :: 0 <= j < |d.entries| ==> d.entries[j].name != name
    decreases |d.entries| - from
  {
    if from == |d.entries| then None
    else if d.entries[from].name == name then Some(from)
    else FindEntryFrom(d, name, from + 1)
  }

  /** `walk(currentDir, depth)`: appends to `acc` what the walk pushes onto
      the shared candidate list. */
  method Walk(d: Node, path: seq<string>, depth: int, acc: seq<Candidate>) returns (out: seq<Candidate>)
    ensures out == acc + WalkSpec(d, path, depth)
    decreases d
  {
    if depth < 0 {
      return acc;
    }
    out := acc;
    for i := 0 to |d.entries|
      invariant out == acc + EntriesUpTo(d, i, path, depth)
    {
      var entry := d.entries[i];
      if !entry.isDir || entry.name in ExcludedNames {
        continue;
      }
      var full := path + [entry.name];
      if HasIndexHtml(entry) {
        out := out + [Candidate(full, entry.mtime)];
      }
      out := Walk(entry, full, depth - 1, out);
    }
  }

  /** The fallback pass over the conventional names. */
  method Fallback(root: Node) returns (out: seq<Candidate>)
    ensures out == FallbackUpTo(root, |FallbackNames|)
  {
    out := [];
    for k := 0 to |FallbackNames|
      invariant out == FallbackUpTo(root, k)
    {
      var name := FallbackNames[k];
      var found := FindEntry(root, name);
      if found.Some? {
        out := out + [Candidate([name], root.entries[found.value].mtime)];
      }
    }
  }

  /** The head of the candidates after the stable sort by descending time: the
      first candidate whose time no other candidate exceeds. */
  method PickLatest(cs: seq<Candidate>) returns (best: nat)
    requires cs != []
    ensures best < |cs|
    ensures forall j :: 0 <= j < |cs| ==> cs[j].mtime <= cs[best].mtime
    ensures forall j :: 0 <= j < best ==> cs[j].mtime < cs[best].mtime
  {
    best := 0;
    for i := 1 to |cs|
      invariant best < i
      invariant forall j :: 0 <= j < i ==> cs[j].mtime <= cs[best].mtime
      invariant forall j :: 0 <= j < best ==> cs[j].mtime < cs[best].mtime
    {
      if cs[i].mtime > cs[best].mtime {
        best := i;
      }
    }
  }

  /** `findStaticOutputDir`: no directory exactly when there is no candidate;
      otherwise the earliest-collected candidate among the most recently
      modified ones. */
  method FindStaticOutputDir(root: Node) returns (r: Option<seq<string>>)
    ensures r.None? <==> Candidates(root) == []
    ensures r.Some? ==>
              exists i :: 0 <= i < |Candidates(root)| && Candidates(root)[i].dir == r.value &&
                (forall j :: 0 <= j < |Candidates(root)| ==> Candidates(root)[j].mtime <= Candidates(root)[i].mtime) &&
                (forall j :: 0 <= j < i ==> Candidates(root)[j].mtime < Candidates(root)[i].mtime)
  {
    var candidates := Walk(root, [], WalkDepth, []);
    if |candidates| == 0 {
      candidates := Fallback(root);
    }
    if |candidates| == 0 {
      return None;
    }
    assert candidates == Candidates(root);
    var best := PickLatest(candidates);
    r := Some(candidates[best].dir);
    assert Candidates(root)[best].dir == r.value;
  }

  /** A path passes through no excluded directory. */
  predicate AvoidsExcluded(names: seq<string>) {
    forall k :: 0 <= k < |names| ==> names[k] !in ExcludedNames
  }

  /** Every candidate of a walk from `path` with depth `depth` lies one to
      `depth + 1` levels below `path` and avoids the excluded names. */
  lemma {:induction false} WalkSound(d: Node, path: seq<string>, depth: int)
    ensures forall c :: c in WalkSpec(d, path, depth) ==>
              |path| < |c.dir| <= |path| + depth + 1 && c.dir[..|path|] == path &&
              AvoidsExcluded(c.dir[|path|..])
    decreases d, 1, 0
  {
    if depth >= 0 {
      EntriesSound(d, |d.entries|, path, depth);
    }
  }

  lemma {:induction false} EntriesSound(d: Node, i: nat, path: seq<string>, depth: int)
    requires i <= |d.entries| && depth >= 0
    ensures forall c :: c in EntriesUpTo(d, i, path, depth) ==>
              |path| < |c.dir| <= |path| + depth + 1 && c.dir[..|path|] == path &&
              AvoidsExcluded(c.dir[|path|..])
    decreases d, 0, i
  {
    if i > 0 {
      EntriesSound(d, i - 1, path, depth);
      EntrySound(d.entries[i - 1], path, depth);
    }
  }

  lemma {:induction false} EntrySound(e: Node, path: seq<string>, depth: int)
    requires depth >= 0
    ensures forall c :: c in EntryCandidates(e, path, depth) ==>
              |path| < |c.dir| <= |path| + depth + 1 && c.dir[..|path|] == path &&
              AvoidsExcluded(c.dir[|path|..])
    decreases e, 2, 0
  {
    if e.isDir && e.name !in ExcludedNames {
      var full := path + [e.name];
      WalkSound(e, full, depth - 1);
      forall c | c in EntryCandidates(e, path, depth)
        ensures |path| < |c.dir| <= |path| + depth + 1 && c.dir[..|path|] == path &&
                AvoidsExcluded(c.dir[|path|..])
      {
        if c in WalkSpec(e, full, depth - 1) {
          assert c.dir[..|path|] == c.dir[..|full|][..|path|];
          assert c.dir[|path|..] == [e.name] + c.dir[|full|..];
        } else {
          assert c == Candidate(full, e.mtime);
          assert c.dir[|path|..] == [e.name];
        }
      }
    }
  }

  /** The walk reports a directory entry that is not excluded and holds an
      `index.html`, and everything the walk below that entry reports. */
  lemma EntryReported(d: Node, i: nat, path: seq<string>, depth: int)
    requires i < |d.entries| && depth >= 0
    requires d.entries[i].isDir && d.entries[i].name !in ExcludedNames
    ensures var e := d.entries[i];
            var full := path + [e.name];
            (HasIndexHtml(e) ==> Candidate(full, e.mtime) in WalkSpec(d, path, depth)) &&
            forall c :: c in WalkSpec(e, full, depth - 1) ==> c in WalkSpec(d, path, depth)
  {
    EntriesUpToGrows(d, i + 1, |d.entries|, path, depth);
  }

  lemma {:induction false} EntriesUpToGrows(d: Node, i: nat, n: nat, path: seq<string>, depth: int)
    requires 0 < i <= n <= |d.entries|
    ensures forall c :: c in EntryCandidates(d.entries[i - 1], path, depth) ==> c in EntriesUpTo(d, n, path, depth)
    decreases n
  {
    if n > i {
      EntriesUpToGrows(d, i, n - 1, path, depth);
    }
  }

  /** A directory with an `index.html` reached through directories that are
      not excluded, at most four levels below the root, is a candidate. */
  ghost predicate IndexedAt(d: Node, names: seq<string>, mtime: int)
    decreases |names|
  {
    if names == [] then HasIndexHtml(d) && d.mtime == mtime
    else
      exists i :: 0 <= i < |d.entries| && d.entries[i].name == names[0] &&
        d.entries[i].isDir && d.entries[i].name !in ExcludedNames &&
        IndexedAt(d.entries[i], names[1..], mtime)
  }

  lemma {:induction false} WalkComplete(d: Node, path: seq<string>, depth: int, names: seq<string>, mtime: int)
    requires 1 <= |names| <= depth + 1
    requires IndexedAt(d, names, mtime)
    ensures Candidate(path + names, mtime) in WalkSpec(d, path, depth)
    decreases |names|
  {
    var i :| 0 <= i < |d.entries| && d.entries[i].name == names[0] &&
      d.entries[i].isDir && d.entries[i].name !in ExcludedNames &&
      IndexedAt(d.entries[i], names[1..], mtime);
    var e := d.entries[i];
    var full := path + [e.name];
    EntryReported(d, i, path, depth);
    if |names| == 1 {
      assert names[1..] == [];
      assert path + names == full;
    } else {
      WalkComplete(e, full, depth - 1, names[1..], mtime);
      assert full + names[1..] == path + names;
    }
  }

  /** Conversely, every candidate of a walk is a directory below `path`
      that holds an `index.html`, reached through non-excluded directories,
      and carries that directory's own modification time. */
  lemma {:induction false} WalkIndexed(d: Node, path: seq<string>, depth: int)
    ensures forall c :: c in WalkSpec(d, path, depth) ==>
              |path| < |c.dir| && c.dir[..|path|] == path && IndexedAt(d, c.dir[|path|..], c.mtime)
    decreases d, 1, 0
  {
    if depth >= 0 {
      EntriesIndexed(d, |d.entries|, path, depth);
    }
  }

  lemma {:induction false} EntriesIndexed(d: Node, i: nat, path: seq<string>, depth: int)
    requires i <= |d.entries|
    ensures forall c :: c in EntriesUpTo(d, i, path, depth) ==>
              |path| < |c.dir| && c.dir[..|path|] == path && IndexedAt(d, c.dir[|path|..], c.mtime)
    decreases d, 0, i
  {
    if i > 0 {
      EntriesIndexed(d, i - 1, path, depth);
      var e := d.entries[i - 1];
      EntryIndexed(e, path, depth);
      forall c | c in EntryCandidates(e, path, depth)
        ensures |path| < |c.dir| && c.dir[..|path|] == path && IndexedAt(d, c.dir[|path|..], c.mtime)
      {
        var names := c.dir[|path|..];
        assert c.dir[..|path|] == c.dir[..|path| + 1][..|path|];
        assert names[0] == c.dir[..|path| + 1][|path|] == e.name;
        assert names[1..] == c.dir[|path| + 1..];
        assert d.entries[i - 1].name == names[0];
      }
    }
  }

  lemma {:induction false} EntryIndexed(e: Node, path: seq<string>, depth: int)
    ensures forall c :: c in EntryCandidates(e, path, depth) ==>
              e.isDir && e.name !in ExcludedNames && |path| < |c.dir| &&
              c.dir[..|path| + 1] == path + [e.name] && IndexedAt(e, c.dir[|path| + 1..], c.mtime)
    decreases e, 2, 0
  {
    if e.isDir && e.name !in ExcludedNames {
      var full := path + [e.name];
      WalkIndexed(e, full, depth - 1);
      forall c | c in EntryCandidates(e, path, depth)
        ensures |path| < |c.dir| && c.dir[..|path| + 1] == full && IndexedAt(e, c.dir[|path| + 1..], c.mtime)
      {
        if c !in WalkSpec(e, full, depth - 1) {
          assert c == Candidate(full, e.mtime);
          assert c.dir[|path| + 1..] == [];
        }
      }
    }
  }

  /** The walk's candidates are exactly the directories within its reach
      that hold an `index.html`, each with its own modification time. */
  lemma WalkCandidatesIff(root: Node, names: seq<string>, mtime: int)
    requires 1 <= |names| <= WalkDepth + 1
    ensures Candidate(names, mtime) in WalkSpec(root, [], WalkDepth) <==> IndexedAt(root, names, mtime)
  {
    WalkIndexed(root, [], WalkDepth);
    if IndexedAt(root, names, mtime) {
      WalkComplete(root, [], WalkDepth, names, mtime);
      assert [] + names == names;
    }
    if Candidate(names, mtime) in WalkSpec(root, [], WalkDepth) {
      assert names[0..] == names;
    }
  }

  /** The fallback candidate for a name: the first root entry so named, file
      or directory, with its modification time. */
  predicate FallbackHit(root: Node, name: string, mtime: int) {
    var found := FindEntry(root, name);
    found.Some? && root.entries[found.value].mtime == mtime
  }

  /** The fallback names are used only when the walk found nothing; then the
      candidates are exactly the conventional names that some root entry has,
      each with that entry's modification time. */
  lemma FallbackOnlyWhenWalkEmpty(root: Node)
    ensures WalkSpec(root, [], WalkDepth) != [] ==> Candidates(root) == WalkSpec(root, [], WalkDepth)
    ensures forall c :: c in Candidates(root) && WalkSpec(root, [], WalkDepth) == [] ==>
              |c.dir| == 1 && c.dir[0] in FallbackNames && FallbackHit(root, c.dir[0], c.mtime)
    ensures forall m :: 0 <= m < |FallbackNames| && FindEntry(root, FallbackNames[m]).Some? &&
                        WalkSpec(root, [], WalkDepth) == [] ==>
              Candidate([FallbackNames[m]], root.entries[FindEntry(root, FallbackNames[m]).value].mtime) in Candidates(root)
  {
    FallbackSound(root, |FallbackNames|);
    FallbackComplete(root, |FallbackNames|);
  }

  lemma {:induction false} FallbackSound(root: Node, k: nat)
    requires k <= |FallbackNames|
    ensures forall c :: c in FallbackUpTo(root, k) ==>
              |c.dir| == 1 && c.dir[0] in FallbackNames && FallbackHit(root, c.dir[0], c.mtime)
  {
    if k > 0 {
      FallbackSound(root, k - 1);
    }
  }

  lemma {:induction false} FallbackComplete(root: Node, k: nat)
    requires k <= |FallbackNames|
    ensures forall m :: 0 <= m < k && FindEntry(root, FallbackNames[m]).Some? ==>
              Candidate([FallbackNames[m]], root.entries[FindEntry(root, FallbackNames[m]).value].mtime) in FallbackUpTo(root, k)
  {
    if k > 0 {
      FallbackComplete(root, k - 1);
    }
  }

  /** The locator finds an output directory whenever some directory within
      reach of the walk holds an `index.html`. */
  lemma IndexedDirFound(root: Node, names: seq<string>, mtime: int)
    requires 1 <= |names| <= WalkDepth + 1
    requires IndexedAt(root, names, mtime)
    ensures Candidate(names, mtime) in Candidates(root)
  {
    WalkComplete(root, [], WalkDepth, names, mtime);
    assert [] + names == names;
  }
}
