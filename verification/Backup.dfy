/** Snapshots of a repository's `.crabcc` directory: capture, retention and restore. */
module Backup {
  import opened Results
  import opened Retention
  import opened Sets

  /** A file tree. A link that points to nothing has no target. */
  datatype Node = File(content: string) | Dir(entries: map<string, Node>) | Link(target: Option<Node>) | Special

  datatype BackupError = NoBackup | CopyFailed

  type Entries = map<string, Node>

  const BACKUP_FILES: set<string> := {
    "index.db", "index.db-shm", "index.db-wal", "graph.json",
    "memory.db", "memory.db-shm", "memory.db-wal", "fsst.symbols"
  }

  const BACKUP_DIRS: set<string> := {"tantivy"}

  function Lookup(entries: Entries, name: string): Option<Node> {
    if name in entries then Some(entries[name]) else None
  }

  lemma SameLookups(a: Entries, b: Entries)
    requires forall name :: Lookup(a, name) == Lookup(b, name)
    ensures a == b
  {
    forall name ensures name in a <==> name in b {
      assert Lookup(a, name) == Lookup(b, name);
    }
    forall name | name in a ensures a[name] == b[name] {
      assert Lookup(a, name) == Lookup(b, name);
    }
  }

  // ----- copying -----

  /** What `is_file`, `is_dir` and opening a path get to see: the end of a chain of links. */
  function Seen(n: Node): (s: Node)
    ensures s == n || s < n
    ensures s.Link? ==> s.target.None?
    ensures !n.Link? ==> s == n
  {
    if n.Link? && n.target.Some? then Seen(n.target.value) else n
  }

  /** Special files and links to nothing are not copied. */
  predicate Skipped(n: Node) { !Seen(n).File? && !Seen(n).Dir? }

  /** A copy of the tree: links give way to what they point to, what is skipped is missing. */
  function Strip(n: Node): Node {
    match Seen(n)
    case Dir(entries) => Dir(map name | name in entries && !Skipped(entries[name]) :: Strip(entries[name]))
    case s => s
  }

  /** Writing through: `n` ends up where a link at the destination points. */
  function Put(dst: Option<Node>, n: Node): Node
    decreases dst
  {
    if dst.Some? && dst.value.Link? then Link(Some(Put(dst.value.target, n))) else n
  }

  /** A file can be written where nothing is, over a file, and through a link to either. */
  predicate TakesFile(dst: Option<Node>) { dst.Some? ==> Seen(dst.value).File? || Seen(dst.value).Link? }

  /** A directory can be created where nothing is, and is entered where one is, or a link to one. */
  predicate TakesDir(dst: Option<Node>) { dst.Some? ==> Seen(dst.value).Dir? }

  function PriorEntries(dst: Option<Node>): Entries {
    if dst.Some? && Seen(dst.value).Dir? then Seen(dst.value).entries else map[]
  }

  /** What stands at the destination after copying `n` there, or an error when the kinds clash. */
  function Copied(n: Node, dst: Option<Node>): Result<Option<Node>, BackupError>
    decreases n, 1
  {
    match Seen(n)
    case File(content) => if TakesFile(dst) then Ok(Some(Put(dst, File(content)))) else Err(CopyFailed)
    case Dir(entries) =>
      if !TakesDir(dst) then Err(CopyFailed)
      else
        var prior := PriorEntries(dst);
        if exists name :: name in entries && Copied(entries[name], Lookup(prior, name)).Err? then Err(CopyFailed)
        else Ok(Some(Put(dst, Dir(MergedEntries(n, entries, prior)))))
    case _ => Ok(dst)
  }

  function MergedEntries(n: Node, entries: Entries, prior: Entries): Entries
    requires Seen(n) == Dir(entries)
    requires forall name :: name in entries ==> Copied(entries[name], Lookup(prior, name)).Ok?
    decreases n, 0
  {
    map name | name in entries.Keys + prior.Keys &&
        (name in entries ==> Copied(entries[name], Lookup(prior, name)).value.Some?)
    :: if name in entries then Copied(entries[name], Lookup(prior, name)).value.value else prior[name]
  }

  /** A directory copy goes through when every entry's does, and then each name is looked up on its own. */
  lemma CopiedDirOk(src: Node, dst: Option<Node>, out: Entries)
    requires Seen(src).Dir? && TakesDir(dst)
    requires var entries, prior := Seen(src).entries, PriorEntries(dst);
             && (forall name :: name in entries ==> Copied(entries[name], Lookup(prior, name)).Ok?)
             && (forall name :: Lookup(out, name) ==
                   if name in entries then Copied(entries[name], Lookup(prior, name)).value else Lookup(prior, name))
    ensures Copied(src, dst) == Ok(Some(Put(dst, Dir(out))))
  {
    var entries, prior := Seen(src).entries, PriorEntries(dst);
    SameLookups(out, MergedEntries(src, entries, prior));
  }

  lemma CopiedDirErr(src: Node, dst: Option<Node>, name: string)
    requires Seen(src).Dir? && name in Seen(src).entries
    requires Copied(Seen(src).entries[name], Lookup(PriorEntries(dst), name)).Err?
    ensures Copied(src, dst) == Err(CopyFailed)
  {
  }

  lemma CopiedLeaf(n: Node, dst: Option<Node>)
    ensures Skipped(n) ==> Copied(n, dst) == Ok(dst)
    ensures Seen(n).File? ==> Copied(n, dst) == if TakesFile(dst) then Ok(Some(Put(dst, Seen(n)))) else Err(CopyFailed)
    ensures Seen(n).Dir? && !TakesDir(dst) ==> Copied(n, dst) == Err(CopyFailed)
  {
  }

  lemma StripEntry(n: Node, name: string)
    requires Seen(n).Dir?
    ensures Strip(n).Dir?
    ensures Lookup(Strip(n).entries, name) ==
            if name in Seen(n).entries && !Skipped(Seen(n).entries[name]) then Some(Strip(Seen(n).entries[name]))
            else None
  {
  }

  /** Copying to a path where nothing is, or an empty directory, never fails and gives the stripped tree. */
  lemma {:induction false} CopyToFreshPath(n: Node)
    ensures Copied(n, None) == Ok(if Skipped(n) then None else Some(Strip(n)))
    ensures Seen(n).Dir? ==> Copied(n, Some(Dir(map[]))) == Ok(Some(Strip(n)))
  {
    CopiedLeaf(n, None);
    if Seen(n).Dir? {
      hide Copied, Strip;
      var entries := Seen(n).entries;
      StripEntry(n, "");
      var out := Strip(n).entries;
      forall name | name in entries
        ensures Copied(entries[name], None) == Ok(if Skipped(entries[name]) then None else Some(Strip(entries[name])))
      {
        CopyToFreshPath(entries[name]);
      }
      forall name ensures Lookup(out, name) == if name in entries then Copied(entries[name], None).value else None {
        StripEntry(n, name);
      }
      CopiedDirOk(n, None, out);
      CopiedDirOk(n, Some(Dir(map[])), out);
    }
  }

  /** Copying a stripped tree again changes nothing: a snapshot survives being copied back. */
  lemma {:induction false} StripTwice(n: Node)
    ensures Strip(Strip(n)) == Strip(n)
    ensures Skipped(Strip(n)) <==> Skipped(n)
    ensures Seen(Strip(n)) == Strip(n)
  {
    if Seen(n).Dir? {
      hide Skipped;
      var entries, once := Seen(n).entries, Strip(n).entries;
      forall name | name in entries
        ensures Strip(Strip(entries[name])) == Strip(entries[name]) &&
                (Skipped(Strip(entries[name])) <==> Skipped(entries[name]))
      {
        StripTwice(entries[name]);
      }
      assert forall name :: name in once ==> name in entries && once[name] == Strip(entries[name]);
      assert Strip(Strip(n)).entries.Keys == once.Keys;
      NotSkipped(Dir(once));
      NotSkipped(n);
    }
  }

  lemma NotSkipped(n: Node)
    requires Seen(n).Dir?
    ensures !Skipped(n)
  {
  }

  /**
   * A link is copied like what it points to, and stands in the copy as a file or directory of its own exactly when
   * it ends at one.
   */
  lemma LinkIsCopiedAsItsTarget(target: Node, dst: Option<Node>, entries: Entries, name: string)
    requires name in entries && entries[name] == Link(Some(target))
    ensures Copied(Link(Some(target)), dst) == Copied(target, dst)
    ensures name in Strip(Dir(entries)).entries <==> Seen(target).File? || Seen(target).Dir?
    ensures name in Strip(Dir(entries)).entries ==>
              Strip(Dir(entries)).entries[name] == Strip(target) && !Strip(target).Link?
  {
    assert Seen(Link(Some(target))) == Seen(target);
    StripTwice(target);
  }

  lemma {:induction false} PutIsSeen(dst: Option<Node>, n: Node)
    requires !n.Link?
    ensures Seen(Put(dst, n)) == n
    decreases dst
  {
    if dst.Some? && dst.value.Link? {
      PutIsSeen(dst.value.target, n);
    }
  }

  // ----- path by path -----

  /** What a path leads to from here, links followed at every name. */
  function At(n: Option<Node>, path: seq<string>): Option<Node>
    decreases |path|
  {
    if n.None? then None
    else if path == [] then Some(Seen(n.value))
    else if Seen(n.value).Dir? then At(Lookup(Seen(n.value).entries, path[0]), path[1..])
    else None
  }

  /** A file would go where a directory or special file is, or a directory where anything else is. */
  predicate ClashAt(src: Node, dst: Option<Node>, path: seq<string>) {
    var s, d := At(Some(src), path), At(dst, path);
    && s.Some? && d.Some?
    && ((s.value.File? && (d.value.Dir? || d.value.Special?)) || (s.value.Dir? && !d.value.Dir?))
  }

  /** The source's file, or a directory where it has one, or else what was there. */
  predicate MergedAt(src: Node, dst: Option<Node>, out: Option<Node>, path: seq<string>) {
    var s := At(Some(src), path);
    if s.Some? && s.value.File? then At(out, path) == s
    else if s.Some? && s.value.Dir? then At(out, path).Some? && At(out, path).value.Dir?
    else At(out, path) == At(dst, path)
  }

  lemma AtDir(n: Option<Node>, path: seq<string>)
    requires path != []
    ensures At(n, path) == At(Lookup(PriorEntries(n), path[0]), path[1..])
  {
  }

  lemma AtPut(dst: Option<Node>, n: Node, path: seq<string>)
    requires !n.Link?
    ensures At(Some(Put(dst, n)), path) == At(Some(n), path)
  {
    PutIsSeen(dst, n);
  }

  lemma CopiedDirEntry(src: Node, dst: Option<Node>, name: string)
    requires Seen(src).Dir? && Copied(src, dst).Ok?
    ensures name in Seen(src).entries ==> Copied(Seen(src).entries[name], Lookup(PriorEntries(dst), name)).Ok?
    ensures var out := PriorEntries(Copied(src, dst).value);
            Lookup(out, name) ==
            if name in Seen(src).entries then Copied(Seen(src).entries[name], Lookup(PriorEntries(dst), name)).value
            else Lookup(PriorEntries(dst), name)
  {
    var entries, prior := Seen(src).entries, PriorEntries(dst);
    PutIsSeen(dst, Dir(MergedEntries(src, entries, prior)));
  }

  /** A copy that goes through merges the source into the destination, path by path. */
  lemma {:induction false} CopyIsMerge(src: Node, dst: Option<Node>, path: seq<string>)
    requires Copied(src, dst).Ok?
    ensures MergedAt(src, dst, Copied(src, dst).value, path)
    decreases |path|
  {
    var out := Copied(src, dst).value;
    CopiedLeaf(src, dst);
    if Seen(src).File? {
      AtPut(dst, Seen(src), path);
      hide Copied;
    } else if Seen(src).Dir? {
      if path == [] {
        PutIsSeen(dst, Dir(MergedEntries(src, Seen(src).entries, PriorEntries(dst))));
      } else {
        var name, rest := path[0], path[1..];
        CopiedDirEntry(src, dst, name);
        hide Copied, Put, TakesDir, TakesFile;
        AtDir(out, path);
        AtDir(dst, path);
        AtDir(Some(src), path);
        if name in Seen(src).entries {
          CopyIsMerge(Seen(src).entries[name], Lookup(PriorEntries(dst), name), rest);
        }
      }
    }
  }

  /** A copy fails exactly when at some path the kinds clash. */
  lemma {:induction false} ClashFails(src: Node, dst: Option<Node>, path: seq<string>)
    requires ClashAt(src, dst, path)
    ensures Copied(src, dst).Err?
    decreases |path|
  {
    CopiedLeaf(src, dst);
    if path != [] {
      AtDir(dst, path);
      AtDir(Some(src), path);
      ClashFails(Seen(src).entries[path[0]], Lookup(PriorEntries(dst), path[0]), path[1..]);
    }
  }

  lemma {:induction false} FailureClashes(src: Node, dst: Option<Node>) returns (path: seq<string>)
    requires Copied(src, dst).Err?
    ensures ClashAt(src, dst, path)
    decreases src
  {
    path := [];
    if Seen(src).Dir? && TakesDir(dst) {
      var entries, prior := Seen(src).entries, PriorEntries(dst);
      var name :| name in entries && Copied(entries[name], Lookup(prior, name)).Err?;
      var rest := FailureClashes(entries[name], Lookup(prior, name));
      path := [name] + rest;
      assert path[1..] == rest;
      AtDir(dst, path);
      AtDir(Some(src), path);
    }
  }

  lemma CopyFailsIff(src: Node, dst: Option<Node>)
    ensures Copied(src, dst).Err? <==> exists path :: ClashAt(src, dst, path)
  {
    hide Copied, ClashAt;
    if Copied(src, dst).Err? {
      var path := FailureClashes(src, dst);
    }
    forall path | ClashAt(src, dst, path) ensures Copied(src, dst).Err? {
      ClashFails(src, dst, path);
    }
  }

  lemma PutOverDir(dst: Option<Node>, n: Node)
    ensures dst.Some? && dst.value.Dir? ==> Put(dst, n) == n
  {
  }

  /** One entry of the loop: `now` is what stands at the destination afterwards, also after a failure. */
  method CopyEntry(child: Node, at: Option<Node>) returns (ok: bool, now: Option<Node>)
    ensures ok ==> Copied(child, at) == Ok(now)
    ensures !ok ==> Copied(child, at) == Err(CopyFailed)
    ensures now.None? ==> at.None?
    decreases child, 1
  {
    CopiedLeaf(child, at);
    hide Copied, TakesFile, TakesDir;
    if Seen(child).Dir? {
      var copied, sub := CopyDirRecursive(child, at);
      return copied, Some(sub);
    }
    if !Seen(child).File? {
      return true, at;
    }
    if !TakesFile(at) {
      return false, at;
    }
    return true, Some(Put(at, Seen(child)));
  }

  /**
   * `copy_dir_recursive`, entry by entry in whatever order the directory lists them. A failure leaves what was
   * written so far in `out`.
   */
  method CopyDirRecursive(src: Node, dst: Option<Node>) returns (ok: bool, out: Node)
    requires Seen(src).Dir?
    ensures ok ==> Copied(src, dst) == Ok(Some(out))
    ensures !ok ==> Copied(src, dst) == Err(CopyFailed)
    ensures dst.Some? && dst.value.Dir? ==> out.Dir?
    decreases src, 0
  {
    CopiedLeaf(src, dst);
    if !TakesDir(dst) {
      return false, dst.value;
    }
    hide Copied, TakesFile, Put, Skipped;
    var entries := Seen(src).entries;
    var prior := PriorEntries(dst);
    hide PriorEntries;
    var written, left := prior, entries.Keys;
    while left != {}
      invariant left <= entries.Keys
      invariant forall name :: name in entries && name !in left ==>
                  var c := Copied(entries[name], Lookup(prior, name)); c.Ok? && Lookup(written, name) == c.value
      invariant forall name :: name !in entries || name in left ==> Lookup(written, name) == Lookup(prior, name)
      decreases |left|
    {
      ghost var some := HasMember(left);
      var name :| name in left;
      ghost var before := written;
      var copied, now := CopyEntry(entries[name], Lookup(written, name));
      if now.Some? {
        written := written[name := now.value];
      }
      if !copied {
        CopiedDirErr(src, dst, name);
        PutOverDir(dst, Dir(written));
        return false, Put(dst, Dir(written));
      }
      assert forall other :: other != name ==> Lookup(written, other) == Lookup(before, other);
      left := left - {name};
    }
    CopiedDirOk(src, dst, written);
    PutOverDir(dst, Dir(written));
    return true, Put(dst, Dir(written));
  }

  // ----- capture and restore -----

  /** The top-level entries a snapshot takes: the listed files and directories that are there. */
  function Selected(repo: Entries): Entries {
    map name | name in repo && IsSelected(name, repo[name]) :: repo[name]
  }

  predicate IsSelected(name: string, n: Node) {
    (name in BACKUP_FILES && Seen(n).File?) || (name in BACKUP_DIRS && Seen(n).Dir?)
  }

  function Captured(repo: Entries): Entries {
    Strip(Dir(Selected(repo))).entries
  }

  /**
   * One entry of a restore. A directory is wiped and replaced: a link in its place is removed itself, a file is in
   * the way. A file is overwritten, through a link if one is there.
   */
  function RestoredEntry(n: Node, dst: Option<Node>): Result<Node, BackupError> {
    match Seen(n)
    case Dir(_) => if dst.Some? && (dst.value.File? || dst.value.Special?) then Err(CopyFailed) else Ok(Strip(n))
    case File(content) => if TakesFile(dst) then Ok(Put(dst, File(content))) else Err(CopyFailed)
    case _ => Err(CopyFailed)
  }

  predicate Restorable(snap: Entries, repo: Entries) {
    forall name :: name in snap ==> RestoredEntry(snap[name], Lookup(repo, name)).Ok?
  }

  /** The repository after a restore that meets no clash. */
  function Restored(snap: Entries, repo: Entries): Entries
    requires Restorable(snap, repo)
  {
    repo + map name | name in snap :: RestoredEntry(snap[name], Lookup(repo, name)).value
  }

  /** What a restore puts at `name`: nothing when it fails there. */
  function RestoredAt(snap: Entries, repo: Entries, name: string): Option<Option<Node>>
    requires name in snap
  {
    var e := RestoredEntry(snap[name], Lookup(repo, name));
    if e.Ok? then Some(Some(e.value)) else None
  }

  lemma AllRestored(snap: Entries, repo: Entries, out: Entries)
    requires forall name :: name in snap ==> Some(Lookup(out, name)) == RestoredAt(snap, repo, name)
    requires forall name :: name !in snap ==> Lookup(out, name) == Lookup(repo, name)
    ensures Restorable(snap, repo) && out == Restored(snap, repo)
  {
    hide RestoredEntry;
    SameLookups(out, Restored(snap, repo));
  }

  lemma CapturedIsStripped(repo: Entries)
    ensures Strip(Dir(Selected(repo))) == Dir(Captured(repo))
  {
  }

  lemma CapturedEntries(repo: Entries)
    ensures Captured(repo).Keys == Selected(repo).Keys
    ensures forall name :: name in Captured(repo) ==>
              name in repo && IsSelected(name, repo[name]) && Captured(repo)[name] == Strip(repo[name])
  {
    hide Strip;
    var selected := Dir(Selected(repo));
    StripEntry(selected, "");
    forall name
      ensures Lookup(Captured(repo), name) == if name in Selected(repo) then Some(Strip(repo[name])) else None
    {
      StripEntry(selected, name);
    }
    forall name ensures name in Captured(repo) <==> name in Selected(repo) {
      assert Lookup(Captured(repo), name) == if name in Selected(repo) then Some(Strip(repo[name])) else None;
    }
    forall name | name in Captured(repo) ensures Captured(repo)[name] == Strip(repo[name]) {
      assert Lookup(Captured(repo), name) == if name in Selected(repo) then Some(Strip(repo[name])) else None;
    }
  }

  /**
   * What a snapshot of `repo` has to hold under `name`: each of the eight files, and the index directory, if it is
   * there or a link ends at one; and nothing else.
   */
  function Kept(repo: Entries, name: string): Option<Node> {
    if name !in repo then None
    else
      match Seen(repo[name])
      case File(content) =>
        if name in {"index.db", "index.db-shm", "index.db-wal", "graph.json",
                    "memory.db", "memory.db-shm", "memory.db-wal", "fsst.symbols"}
        then Some(File(content)) else None
      case Dir(_) => if name == "tantivy" then Some(Strip(repo[name])) else None
      case _ => None
  }

  /** The snapshot holds under each name what it has to, and nothing under other names. */
  ghost predicate Holds(snap: Entries, repo: Entries) { forall name :: Lookup(snap, name) == Kept(repo, name) }

  lemma KeptIff(repo: Entries, name: string)
    ensures Kept(repo, name) == if name in repo && IsSelected(name, repo[name]) then Some(Strip(repo[name])) else None
  {
  }

  lemma CapturedHolds(repo: Entries)
    ensures Holds(Captured(repo), repo)
  {
    CapturedEntries(repo);
    hide Captured, Kept, IsSelected;
    forall name ensures Lookup(Captured(repo), name) == Kept(repo, name) {
      KeptIff(repo, name);
    }
  }

  lemma OnlyCapturedHolds(snap: Entries, repo: Entries)
    requires Holds(snap, repo)
    ensures snap == Captured(repo)
  {
    CapturedHolds(repo);
    hide Captured, Kept;
    forall name ensures Lookup(snap, name) == Lookup(Captured(repo), name) {
      assert Lookup(snap, name) == Kept(repo, name);
    }
    SameLookups(snap, Captured(repo));
  }

  /** Nothing is in the way of restoring what `before` was: a file or a link to one, a directory or any link. */
  predicate OutOfTheWay(before: Node, now: Node) {
    if Seen(before).File? then Seen(now).File? || Seen(now).Link? else now.Dir? || now.Link?
  }

  /** What restoring one captured entry does. */
  lemma RestoreOne(before: Node, dst: Option<Node>)
    requires Seen(before).File? || Seen(before).Dir?
    ensures RestoredEntry(Strip(before), dst).Ok? <==> (dst.Some? ==> OutOfTheWay(before, dst.value))
    ensures RestoredEntry(Strip(before), dst).Ok? ==> Seen(RestoredEntry(Strip(before), dst).value) == Strip(before)
    ensures RestoredEntry(Strip(before), dst).Ok? && Seen(before).Dir? ==>
            RestoredEntry(Strip(before), dst).value == Strip(before)
    ensures RestoredEntry(Strip(before), dst).Ok? && Seen(before).File? ==>
              RestoredEntry(Strip(before), dst).value == Put(dst, Seen(before))
  {
    StripTwice(before);
    if Seen(before).File? {
      PutIsSeen(dst, Seen(before));
    }
  }

  lemma CapturedComesBack(before: Entries, now: Entries)
    ensures forall name :: name in Captured(before) ==> name in before
    ensures Restorable(Captured(before), now) <==>
            forall name :: name in Captured(before) && name in now ==> OutOfTheWay(before[name], now[name])
    ensures Restorable(Captured(before), now) ==>
              var out := Restored(Captured(before), now);
              && (forall name :: name in Captured(before) ==> name in out && Seen(out[name]) == Strip(before[name]))
              && (forall name :: name !in Captured(before) ==> Lookup(out, name) == Lookup(now, name))
  {
    CapturedEntries(before);
    var snap := Captured(before);
    hide Captured, Strip, RestoredEntry, Selected, OutOfTheWay;
    forall name | name in snap
      ensures RestoredEntry(snap[name], Lookup(now, name)).Ok? <==>
              (name in now ==> OutOfTheWay(before[name], now[name]))
      ensures RestoredEntry(snap[name], Lookup(now, name)).Ok? ==>
                Seen(RestoredEntry(snap[name], Lookup(now, name)).value) == Strip(before[name])
    {
      RestoreOne(before[name], Lookup(now, name));
    }
  }

  /**
   * A round trip: whatever happened to the repository since, restoring a snapshot gives each of the eight files and
   * the index directory that were there back, and leaves every other name alone. It fails exactly when a directory or
   * special file is where a file was, or a file or special file where the directory was.
   */
  lemma RestoreGivesWhatWasCaptured(before: Entries, snap: Entries, now: Entries)
    requires Holds(snap, before)
    ensures Restorable(snap, now) <==>
            forall name :: name in now && Kept(before, name).Some? ==> OutOfTheWay(before[name], now[name])
    ensures Restorable(snap, now) ==>
              var out := Restored(snap, now);
              forall name ::
                if Kept(before, name).Some? then name in out && Seen(out[name]) == Kept(before, name).value
                else Lookup(out, name) == Lookup(now, name)
  {
    OnlyCapturedHolds(snap, before);
    CapturedComesBack(before, now);
    CapturedEntries(before);
    hide Captured, Strip, RestoredEntry, Restorable, Restored, OutOfTheWay, IsSelected, Kept;
    forall name ensures Kept(before, name).Some? <==> name in snap {
      assert Lookup(snap, name) == Kept(before, name);
    }
    forall name | name in snap ensures Kept(before, name) == Some(Strip(before[name])) {
      KeptIff(before, name);
    }
  }

  lemma {:induction false} PutBack(n: Node)
    requires Seen(n).File?
    ensures Put(Some(n), Seen(n)) == n
  {
    if n.Link? {
      PutBack(n.target.value);
    }
  }

  /**
   * Restoring at once never fails, and is the identity exactly when the captured directories are no links and hold
   * neither links nor special files.
   */
  lemma RestoreAtOnce(repo: Entries, snap: Entries)
    requires Holds(snap, repo)
    ensures Restorable(snap, repo)
    ensures Restored(snap, repo) == repo <==>
            ("tantivy" in repo && Seen(repo["tantivy"]).Dir? ==> Strip(repo["tantivy"]) == repo["tantivy"])
  {
    OnlyCapturedHolds(snap, repo);
    CapturedAtOnce(repo);
    hide Captured, Strip, Restored, Restorable;
    assert forall name :: name in Selected(repo) && Seen(repo[name]).Dir? <==>
        name == "tantivy" && name in repo && Seen(repo[name]).Dir?;
  }

  lemma CapturedAtOnce(repo: Entries)
    ensures Restorable(Captured(repo), repo)
    ensures Restored(Captured(repo), repo) == repo <==>
            forall name :: name in Selected(repo) && Seen(repo[name]).Dir? ==> Strip(repo[name]) == repo[name]
  {
    CapturedComesBack(repo, repo);
    CapturedEntries(repo);
    var snap, out := Captured(repo), Restored(Captured(repo), repo);
    hide Captured, Strip, RestoredEntry;
    forall name | name in snap
      ensures Lookup(out, name) == Some(if Seen(repo[name]).Dir? then Strip(repo[name]) else repo[name])
    {
      RestoreOne(repo[name], Some(repo[name]));
      if Seen(repo[name]).File? {
        PutBack(repo[name]);
      }
    }
    if forall name :: name in Selected(repo) && Seen(repo[name]).Dir? ==> Strip(repo[name]) == repo[name] {
      SameLookups(out, repo);
    }
    forall name | out == repo && name in Selected(repo) && Seen(repo[name]).Dir?
      ensures Strip(repo[name]) == repo[name]
    {
      assert Lookup(out, name) == Lookup(repo, name);
    }
  }

  // ----- retention -----

  /** What `prune_to_n` leaves when only the directories in `removable` can be removed. */
  function Pruned(snaps: map<nat, Entries>, keep: nat, removable: set<nat>): map<nat, Entries> {
    map t | t in snaps && (t in Newest(snaps.Keys, keep) || t !in removable) :: snaps[t]
  }

  lemma PrunedIsKept(snaps: map<nat, Entries>, keep: nat, removable: set<nat>, ts: nat)
    requires ts in snaps
    ensures ts in Pruned(snaps, keep, removable) ==> Pruned(snaps, keep, removable)[ts] == snaps[ts]
  {
  }

  /** A machine's copy of one repository's `.crabcc` directory and that repository's backups by timestamp. */
  class Machine {
    var repo: Entries
    var snapshots: map<nat, Entries>

    constructor (repo: Entries)
      ensures this.repo == repo && snapshots == map[]
    {
      this.repo, snapshots := repo, map[];
    }

    /** `prune_to_n`: best effort, one failed removal does not stop the rest. */
    method PruneToN(keep: nat, removable: set<nat>) returns (removed: nat)
      modifies this`snapshots
      ensures snapshots == Pruned(old(snapshots), keep, removable)
      ensures removed == |old(snapshots)| - |snapshots|
    {
      ghost var was := snapshots;
      var entries := NewestFirst(snapshots.Keys);
      removed := 0;
      var i := keep;
      while i < |entries|
        invariant keep <= i
        invariant snapshots.Keys <= was.Keys
        invariant forall t :: t in snapshots ==> snapshots[t] == was[t]
        invariant forall k :: 0 <= k < |entries| ==>
                    (entries[k] in snapshots <==> k < keep || k >= i || entries[k] !in removable)
        invariant removed + |snapshots| == |was|
      {
        forall k | 0 <= k < |entries| && k != i ensures entries[k] != entries[i] {
          if k < i {
            ListingDescends(was.Keys, k, i);
          } else {
            ListingDescends(was.Keys, i, k);
          }
        }
        if entries[i] in removable {
          assert entries[i] in snapshots;
          snapshots := snapshots - {entries[i]};
          removed := removed + 1;
        }
        i := i + 1;
      }
      forall t | t in was
        ensures t in snapshots <==> t in Newest(was.Keys, keep) || t !in removable
      {
        assert t in entries;
        var k :| 0 <= k < |entries| && entries[k] == t;
        RankInListing(was.Keys, k);
      }
    }

    /** `snapshot`: copy the selected entries under the timestamp, then prune. */
    method Snapshot(ts: nat, keep: nat, removable: set<nat>) returns (r: Result<nat, BackupError>)
      modifies this`snapshots
      ensures var prior := if ts in old(snapshots) then old(snapshots)[ts] else map[];
              var copied := Copied(Dir(Selected(repo)), Some(Dir(prior)));
              if copied.Ok? then
                snapshots == Pruned(old(snapshots)[ts := copied.value.value.entries], keep, removable) &&
                r == Ok(|old(snapshots).Keys + {ts}| - |snapshots|)
              else
                r == Err(CopyFailed) && ts in snapshots && snapshots == old(snapshots)[ts := snapshots[ts]]
      ensures ts !in old(snapshots) ==>
                r.Ok? && snapshots == Pruned(old(snapshots)[ts := Captured(repo)], keep, removable)
      ensures ts !in old(snapshots) && ts in snapshots ==> Holds(snapshots[ts], repo)
    {
      hide Copied, Captured, Selected, Pruned, Holds;
      CapturedIsStripped(repo);
      var prior: Entries := if ts in snapshots then snapshots[ts] else map[];
      var ok, out := CopyDirRecursive(Dir(Selected(repo)), Some(Dir(prior)));
      CopyToFreshPath(Dir(Selected(repo)));
      ghost var was := snapshots;
      snapshots := snapshots[ts := out.entries];
      if !ok {
        return Err(CopyFailed);
      }
      assert snapshots.Keys == was.Keys + {ts};
      CapturedHolds(repo);
      PrunedIsKept(snapshots, keep, removable, ts);
      var pruned := PruneToN(keep, removable);
      return Ok(pruned);
    }

    /** One entry of the restore loop. */
    method RestoreEntry(name: string, entry: Node) returns (ok: bool)
      modifies this`repo
      ensures ok == RestoredEntry(entry, Lookup(old(repo), name)).Ok?
      ensures ok ==> repo == old(repo)[name := RestoredEntry(entry, Lookup(old(repo), name)).value]
      ensures !ok ==> repo == old(repo)
    {
      if Seen(entry).Dir? {
        if name in repo && (repo[name].Dir? || repo[name].Link?) {
          repo := repo - {name};
        }
        CopyToFreshPath(entry);
        CopiedLeaf(entry, Lookup(repo, name));
        var copied, out := CopyDirRecursive(entry, Lookup(repo, name));
        if !copied {
          return false;
        }
        repo := repo[name := out];
      } else {
        if !Seen(entry).File? || !TakesFile(Lookup(repo, name)) {
          return false;
        }
        repo := repo[name := Put(Lookup(repo, name), Seen(entry))];
      }
      return true;
    }

    /** `restore`: entry by entry in whatever order the backup directory lists them. */
    method Restore(ts: nat) returns (r: Result<nat, BackupError>)
      modifies this`repo
      ensures ts !in snapshots ==> r == Err(NoBackup) && repo == old(repo)
      ensures ts in snapshots ==>
                (if Restorable(snapshots[ts], old(repo))
                 then r == Ok(|snapshots[ts]|) && repo == Restored(snapshots[ts], old(repo))
                 else r == Err(CopyFailed))
      ensures forall name :: Lookup(repo, name) == Lookup(old(repo), name) || (ts in snapshots &&
                name in snapshots[ts] && Some(Lookup(repo, name)) == RestoredAt(snapshots[ts], old(repo), name))
    {
      hide RestoredEntry, Restored, Strip;
      if ts !in snapshots {
        return Err(NoBackup);
      }
      var snap := snapshots[ts];
      ghost var was := repo;
      var left, count := snap.Keys, 0;
      while left != {}
        invariant left <= snap.Keys && count + |left| == |snap|
        invariant forall name :: name in snap && name !in left ==>
                Some(Lookup(repo, name)) == RestoredAt(snap, was, name)
        invariant forall name :: name !in snap || name in left ==> Lookup(repo, name) == Lookup(was, name)
        decreases |left|
      {
        ghost var some := HasMember(left);
        var name :| name in left;
        ghost var before := repo;
        var ok := RestoreEntry(name, snap[name]);
        if !ok {
          return Err(CopyFailed);
        }
        assert forall other :: other != name ==> Lookup(repo, other) == Lookup(before, other);
        count := count + 1;
        left := left - {name};
      }
      AllRestored(snap, was, repo);
      return Ok(count);
    }
  }

  // ----- whole runs -----

  /** The store after a run of snapshots, each taken at a timestamp of what the repository then held. */
  function After(run: seq<(nat, Entries)>, keep: nat): map<nat, Entries> {
    if run == [] then map[]
    else
      var (ts, repo) := run[|run| - 1];
      var snaps := After(run[..|run| - 1], keep)[ts := Captured(repo)];
      Pruned(snaps, keep, snaps.Keys)
  }

  function Times(run: seq<(nat, Entries)>): set<nat> {
    set i | 0 <= i < |run| :: run[i].0
  }

  lemma TimesSnoc(run: seq<(nat, Entries)>)
    requires run != []
    ensures Times(run) == Times(run[..|run| - 1]) + {run[|run| - 1].0}
  {
    var n := |run| - 1;
    forall t | t in Times(run) ensures t in Times(run[..n]) + {run[n].0} {
      var i :| 0 <= i < |run| && run[i].0 == t;
      if i < n {
        assert run[..n][i].0 == t;
      }
    }
    forall t | t in Times(run[..n]) ensures t in Times(run) {
      var i :| 0 <= i < n && run[..n][i].0 == t;
      assert run[i].0 == t;
    }
  }

  /** When every removal succeeds, pruning keeps exactly the newest, unchanged. */
  lemma PrunedKeys(snaps: map<nat, Entries>, keep: nat)
    ensures Pruned(snaps, keep, snaps.Keys).Keys == Newest(snaps.Keys, keep) <= snaps.Keys
    ensures forall t :: t in Pruned(snaps, keep, snaps.Keys) ==> Pruned(snaps, keep, snaps.Keys)[t] == snaps[t]
  {
  }

  lemma AfterStep(run: seq<(nat, Entries)>, keep: nat)
    requires run != []
    ensures var n := |run| - 1;
            var snaps := After(run[..n], keep)[run[n].0 := Captured(run[n].1)];
            After(run, keep) == Pruned(snaps, keep, snaps.Keys)
  {
    hide Captured, Pruned;
  }

  /** One more snapshot on top of the newest of those before it. */
  lemma OneMoreSnapshot(before: map<nat, Entries>, times: set<nat>, ts: nat, taken: Entries, keep: nat)
    requires before.Keys == Newest(times, keep) && ts !in times
    ensures var snaps := before[ts := taken];
            var after := Pruned(snaps, keep, snaps.Keys);
            && after.Keys == Newest(times + {ts}, keep)
            && (ts in after ==> after[ts] == taken)
            && forall t :: t in after && t != ts ==> t in before && after[t] == before[t]
  {
    hide Pruned, Newest;
    NewestAbsorbs(times, {ts}, keep);
    var snaps := before[ts := taken];
    assert snaps.Keys == Newest(times, keep) + {ts};
    PrunedKeys(snaps, keep);
  }

  /**
   * Whatever order the clock produced them in, the survivors of a run are exactly the `keep` newest of
   * all the snapshots ever taken, and each holds what was captured when it was taken.
   */
  lemma {:induction false} SurvivorsAreTheNewest(run: seq<(nat, Entries)>, keep: nat)
    requires forall i, j :: 0 <= i < j < |run| ==> run[i].0 != run[j].0
    ensures After(run, keep).Keys == Newest(Times(run), keep)
    ensures forall i :: 0 <= i < |run| && run[i].0 in After(run, keep) ==> Holds(After(run, keep)[run[i].0], run[i].1)
  {
    if run == [] {
    } else {
      var n := |run| - 1;
      var init, ts, taken := run[..n], run[n].0, Captured(run[n].1);
      assert ts !in Times(init);
      TimesSnoc(run);
      AfterStep(run, keep);
      CapturedHolds(run[n].1);
      hide After, Captured, Newest, Times, Pruned, Holds;
      SurvivorsAreTheNewest(init, keep);
      OneMoreSnapshot(After(init, keep), Times(init), ts, taken, keep);
      forall i | 0 <= i < n && run[i].0 in After(run, keep)
        ensures Holds(After(run, keep)[run[i].0], run[i].1)
      {
        assert init[i] == run[i] && init[i].0 in After(init, keep);
      }
    }
  }
}
