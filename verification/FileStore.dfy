/** The storage server's files and its whole-file commands, each taken as one step. */
module FileStore {
  import opened Text
  import opened Sentences
  import opened Words
  import opened Commit

  /** Paths to contents. */
  type Disk = map<string, string>

  const ROOT := "ss_files/"
  const CHECKPOINTS := ".checkpoints/"

  predicate HasDotDot(f: string) { exists i :: 0 <= i < |f| - 1 && f[i] == '.' && f[i + 1] == '.' }

  /** get_safe_path: the empty path for a name containing "..". */
  function Live(f: string): string { if HasDotDot(f) then "" else ROOT + f }

  function Bak(f: string): string { Live(f) + ".bak" }

  function Tmp(f: string): string { Live(f) + ".tmp" }

  function CheckpointPath(f: string, tag: string): string { ROOT + CHECKPOINTS + f + "." + tag }

  function Get(d: Disk, p: string): Option<string> { if p in d then Some(d[p]) else None }

  /** rename: replaces the target; no file has the empty path. */
  function Rename(d: Disk, from: string, to: string): (Disk, bool) {
    if from in d && to != "" then ((d - {from})[to := d[from]], true) else (d, false)
  }

  /** copy_file: opening the target truncates it before the source is read. */
  function Copy(d: Disk, from: string, to: string): (Disk, bool) {
    if from !in d || to == "" then (d, false)
    else if from == to then (d[to := ""], true)
    else (d[to := d[from]], true)
  }

  /** commit_changes, uninterrupted. */
  function CommitDisk(d: Disk, f: string, n: int, ops: seq<Write>): Disk {
    if Live(f) == "" then d
    else
      var content := if Live(f) in d then d[Live(f)] else "";
      if Locate(content, n).Missing? then d
      else
        var written := d[Tmp(f) := CommitText(content, n, ops)];
        var backed := if Live(f) in d then Rename(written, Live(f), Bak(f)).0 else written;
        Rename(backed, Tmp(f), Live(f)).0
  }

  datatype Step =
    | Create(file: string)
    | Delete(file: string)
    | Commit(file: string, sentence: int, ops: seq<Write>)
    | Undo(file: string)
    | Checkpoint(file: string, tag: string)
    | Revert(file: string, tag: string)

  function Exec(d: Disk, s: Step): (Disk, bool) {
    match s
    case Create(f) => if Live(f) == "" || Live(f) in d then (d, false) else (d[Live(f) := ""], true)
    case Delete(f) => if Live(f) in d then (d - {Live(f)}, true) else (d, false)
    case Commit(f, n, ops) => (CommitDisk(d, f, n, ops), true)
    case Undo(f) => Rename(d, Bak(f), Live(f))
    case Checkpoint(f, tag) => Copy(d, Live(f), CheckpointPath(f, tag))
    case Revert(f, tag) => Copy(d, CheckpointPath(f, tag), Live(f))
  }

  // ---- The commands as methods over a store that is changed in place ----

  class Store {
    var files: Disk

    constructor (d: Disk)
      ensures files == d
    {
      files := d;
    }

    method RenameFile(from: string, to: string) returns (ok: bool)
      modifies this
      ensures (files, ok) == Rename(old(files), from, to)
    {
      ok := from in files && to != "";
      if ok {
        var content := files[from];
        files := files - {from};
        files := files[to := content];
      }
    }

    /** copy_file, in blocks of 4096 bytes. */
    method CopyFile(from: string, to: string) returns (ok: bool)
      modifies this
      ensures (files, ok) == Copy(old(files), from, to)
    {
      if from !in files || to == "" { return false; }
      files := files[to := ""];
      var read, source := 0, files[from];
      while read < |source|
        invariant 0 <= read <= |source| && source == if from == to then "" else old(files)[from]
        invariant files == old(files)[to := source[..read]]
      {
        var block := if |source| - read < 4096 then |source| - read else 4096;
        files := files[to := files[to] + source[read..read + block]];
        assert source[..read] + source[read..read + block] == source[..read + block];
        read := read + block;
      }
      assert source[..|source|] == source;
      ok := true;
    }

    method CommitChanges(f: string, n: int, ops: seq<Write>)
      modifies this
      ensures files == CommitDisk(old(files), f, n, ops)
    {
      var live := Live(f);
      if live == "" { return; }
      var existed := live in files;
      var content := if existed then files[live] else "";
      var found, text := EditText(content, n, ops);
      if !found { return; }
      files := files[live + ".tmp" := text];
      if existed {
        var backed := RenameFile(live, live + ".bak");
      }
      TmpNotLive(f);
      // The file was just written and the target path is not empty, so this rename succeeds
      // and the source's attempt to restore the backup is never made.
      var done := RenameFile(live + ".tmp", live);
      assert done;
    }

    /** SS_CREATE: exclusive creation. */
    method CreateFile(f: string) returns (ok: bool)
      modifies this
      ensures (files, ok) == Exec(old(files), Create(f))
    {
      var live := Live(f);
      ok := live != "" && live !in files;
      if ok { files := files[live := ""]; }
    }

    /** SS_DELETE. */
    method DeleteFile(f: string) returns (ok: bool)
      modifies this
      ensures (files, ok) == Exec(old(files), Delete(f))
    {
      ok := Live(f) in files;
      if ok { files := files - {Live(f)}; }
    }

    method UndoFile(f: string) returns (ok: bool)
      modifies this
      ensures (files, ok) == Exec(old(files), Undo(f))
    {
      ok := RenameFile(Live(f) + ".bak", Live(f));
    }

    method CheckpointFile(f: string, tag: string) returns (ok: bool)
      modifies this
      ensures (files, ok) == Exec(old(files), Checkpoint(f, tag))
    {
      ok := CopyFile(Live(f), CheckpointPath(f, tag));
    }

    method RevertFile(f: string, tag: string) returns (ok: bool)
      modifies this
      ensures (files, ok) == Exec(old(files), Revert(f, tag))
    {
      ok := CopyFile(CheckpointPath(f, tag), Live(f));
    }
  }

  // ---- Paths ----

  lemma TmpNotLive(f: string)
    ensures Tmp(f) != Live(f) && Bak(f) != Live(f) && Tmp(f) != Bak(f) && Tmp(f) != "" && Bak(f) != ""
  {
    assert |Tmp(f)| == |Live(f)| + 4 == |Bak(f)|;
    assert Tmp(f)[|Live(f)| + 1] == 't' && Bak(f)[|Live(f)| + 1] == 'b';
  }

  lemma SuffixCut(a: string, b: string, x: string, y: string)
    requires a + x == b + y && |x| == |y|
    ensures a == b && x == y
  {
    assert a == (a + x)[..|a|] && b == (b + y)[..|b|];
    assert x == (a + x)[|a|..] && y == (b + y)[|b|..];
  }

  lemma PrefixCut(x: string, a: string, b: string)
    requires x + a == x + b
    ensures a == b
  {
    assert a == (x + a)[|x|..] && b == (x + b)[|x|..];
  }

  /** Live, backup and temporary paths of different names collide only when a name is another one's with the suffix. */
  lemma PathsCollide(f: string, g: string)
    requires Live(f) != "" && Live(g) != ""
    ensures Live(f) == Live(g) || Bak(f) == Bak(g) || Tmp(f) == Tmp(g) ==> f == g
    ensures Bak(f) != Tmp(g)
    ensures Live(g) == Bak(f) <==> g == f + ".bak"
    ensures Live(g) == Tmp(f) <==> g == f + ".tmp"
  {
    if Live(f) == Live(g) { PrefixCut(ROOT, f, g); }
    if Bak(f) == Bak(g) { SuffixCut(Live(f), Live(g), ".bak", ".bak"); PrefixCut(ROOT, f, g); }
    if Tmp(f) == Tmp(g) { SuffixCut(Live(f), Live(g), ".tmp", ".tmp"); PrefixCut(ROOT, f, g); }
    assert ".bak"[1] != ".tmp"[1];
    if Bak(f) == Tmp(g) { SuffixCut(Live(f), Live(g), ".bak", ".tmp"); }
    SuffixedPath(f, g, ".bak");
    SuffixedPath(f, g, ".tmp");
  }

  lemma SuffixedPath(f: string, g: string, x: string)
    ensures ROOT + g == ROOT + f + x <==> g == f + x
  {
    assert ROOT + f + x == ROOT + (f + x);
    if ROOT + g == ROOT + f + x { PrefixCut(ROOT, g, f + x); }
  }

  lemma InFront(f: string, x: string, c: char, k: nat)
    requires k < |f + x| && (f + x)[k] == c && c !in x
    ensures k < |f|
  {
  }

  /** With a dot-free tag the checkpoint path determines the file name and the tag. */
  lemma CheckpointInjective(f: string, t: string, g: string, u: string)
    requires '.' !in t && '.' !in u && CheckpointPath(f, t) == CheckpointPath(g, u)
    ensures f == g && t == u
  {
    var x := ROOT + CHECKPOINTS;
    assert CheckpointPath(f, t) == x + (f + "." + t) && CheckpointPath(g, u) == x + (g + "." + u);
    PrefixCut(x, f + "." + t, g + "." + u);
    var y := f + "." + t;
    assert y == (f + ".") + t == (g + ".") + u;
    assert y[|f|] == '.' && y[|g|] == '.';
    InFront(f + ".", t, '.', |g|);
    InFront(g + ".", u, '.', |f|);
    assert f == y[..|f|] && t == y[|f| + 1..];
  }

  // ---- Runs ----

  function After(d: Disk, run: seq<Step>): Disk {
    if run == [] then d else Exec(After(d, run[..|run| - 1]), run[|run| - 1]).0
  }

  /** The effect of one commit on the paths of its own and of every other. */
  lemma CommitEffect(d: Disk, f: string, n: int, ops: seq<Write>)
    requires Live(f) != ""
    ensures var d', content := CommitDisk(d, f, n, ops), if Live(f) in d then d[Live(f)] else "";
      if Locate(content, n).Missing? then d' == d
      else
        && Get(d', Live(f)) == Some(CommitText(content, n, ops))
        && Get(d', Bak(f)) == (if Live(f) in d then Some(d[Live(f)]) else Get(d, Bak(f)))
        && Tmp(f) !in d'
    ensures forall p :: p !in {Live(f), Bak(f), Tmp(f)} ==> Get(CommitDisk(d, f, n, ops), p) == Get(d, p)
  {
    TmpNotLive(f);
    hide Live, Bak, Tmp, Locate, CommitText;
  }

  /** A commit to f leaves the file of another name alone exactly when that name is not f with one of the suffixes. */
  lemma CommitSpares(f: string, g: string)
    requires Live(f) != "" && Live(g) != "" && f != g
    ensures (forall d, n, ops :: Get(CommitDisk(d, f, n, ops), Live(g)) == Get(d, Live(g)))
            <==> g != f + ".bak" && g != f + ".tmp"
  {
    hide Live, Bak, Tmp, CommitDisk;
    PathsCollide(f, g);
    if g == f + ".bak" || g == f + ".tmp" {
      SuffixOverwritten(f, g);
    } else {
      forall d, n, ops ensures Get(CommitDisk(d, f, n, ops), Live(g)) == Get(d, Live(g)) { CommitEffect(d, f, n, ops); }
    }
  }

  lemma SuffixOverwritten(f: string, g: string)
    requires Live(f) != "" && Live(g) != "" && (g == f + ".bak" || g == f + ".tmp")
    ensures var d := map[Live(f) := "x", Live(g) := "y"];
      Get(d, Live(g)) == Some("y") && Get(CommitDisk(d, f, 0, []), Live(g))
        == if g == f + ".bak" then Some("x") else None
  {
    hide CommitDisk, CommitText, Locate;
    PathsCollide(f, g);
    TmpNotLive(f);
    hide Live, Bak, Tmp;
    var d := map[Live(f) := "x", Live(g) := "y"];
    CommitEffect(d, f, 0, []);
    FirstSentence("x", 0);
  }

  /** The paths a step may change. */
  function Touched(s: Step): set<string> {
    match s
    case Commit(f, _, _) => {Live(f), Bak(f), Tmp(f)}
    case Undo(f) => {Live(f), Bak(f)}
    case Checkpoint(f, tag) => {CheckpointPath(f, tag)}
    case _ => {Live(s.file)}
  }

  lemma StepTouches(d: Disk, s: Step)
    requires "" !in d
    ensures "" !in Exec(d, s).0
    ensures Live(s.file) == "" ==> Exec(d, s).0 == d
    ensures forall p :: p !in Touched(s) ==> Get(Exec(d, s).0, p) == Get(d, p)
  {
    var f := s.file;
    TmpNotLive(f);
    if Live(f) != "" && s.Commit? { CommitEffect(d, f, s.sentence, s.ops); CommitNoEmpty(d, f, s.sentence, s.ops); }
    assert s.Checkpoint? ==> CheckpointPath(f, s.tag) != "";
    hide Live, Bak, Tmp, CheckpointPath, CommitDisk, HasDotDot;
  }

  lemma CommitNoEmpty(d: Disk, f: string, n: int, ops: seq<Write>)
    requires "" !in d && Live(f) != ""
    ensures "" !in CommitDisk(d, f, n, ops)
  {
    TmpNotLive(f);
    CommitEffect(d, f, n, ops);
    hide CommitDisk;
    assert Get(CommitDisk(d, f, n, ops), "") == Get(d, "");
  }

  // ---- What the single commands do ----

  /** Names that hold ".." somewhere are refused; any other is a path below the storage server's directory. */
  lemma SafePaths(f: string, tag: string)
    ensures Live(f) == "" <==> exists a, b :: f == a + ".." + b
    ensures Live(f) != "" ==> Live(f) == "ss_files/" + f
    ensures Live(f) != "" ==> Bak(f) == "ss_files/" + f + ".bak" && Tmp(f) == "ss_files/" + f + ".tmp"
    ensures CheckpointPath(f, tag) == "ss_files/.checkpoints/" + f + "." + tag
  {
    if HasDotDot(f) {
      var i :| 0 <= i < |f| - 1 && f[i] == '.' && f[i + 1] == '.';
      assert f == f[..i] + ".." + f[i + 2..];
    }
    if a, b :| f == a + ".." + b {
      assert f[|a|] == '.' && f[|a| + 1] == '.';
      assert HasDotDot(f);
    }
    assert ROOT + CHECKPOINTS == "ss_files/.checkpoints/";
  }

  /** Creation is exclusive: it succeeds exactly when a safe path was free, adds one empty file there, and changes no
      file there is. */
  lemma CreateIsExclusive(d: Disk, f: string)
    ensures var (d', ok) := Exec(d, Create(f));
      && (ok <==> Live(f) != "" && Live(f) !in d)
      && (forall p :: p in d ==> p in d' && d'[p] == d[p])
      && (forall p :: p in d' ==> p in d || (ok && p == Live(f) && d'[p] == ""))
      && (ok ==> Live(f) in d')
  {
    hide Live;
  }

  /** The answer of every other command, and the file it is about afterwards. */
  lemma CommandAnswers(d: Disk, f: string, tag: string)
    requires Live(f) != ""
    ensures forall n, ops :: Exec(d, Commit(f, n, ops)).1
    ensures var (d', ok) := Exec(d, Delete(f)); (ok <==> Live(f) in d) && d'.Keys == d.Keys - {Live(f)}
    ensures var (d', ok) := Exec(d, Undo(f));
      (ok <==> Bak(f) in d) && (ok ==> Bak(f) !in d' && Get(d', Live(f)) == Get(d, Bak(f))) && (!ok ==> d' == d)
    ensures var (d', ok) := Exec(d, Checkpoint(f, tag));
      (ok <==> Live(f) in d) && (ok ==> Get(d', CheckpointPath(f, tag)) == Get(d, Live(f))) && (!ok ==> d' == d)
    ensures var p := CheckpointPath(f, tag); var (d', ok) := Exec(d, Revert(f, tag));
      (ok <==> p in d) && (ok ==> Get(d', Live(f)) == Get(d, p)) && (!ok ==> d' == d)
  {
    TmpNotLive(f);
    NotItsCheckpoint(f, tag);
    hide Live, Bak, CheckpointPath;
  }

  /** A command on a refused name changes nothing; only a commit is acknowledged all the same. */
  lemma UnsafeRefused(d: Disk, s: Step)
    requires Live(s.file) == "" && "" !in d
    ensures Exec(d, s).0 == d && (Exec(d, s).1 <==> s.Commit?)
  {
    hide Live, Bak, CheckpointPath;
  }

  // ---- The content of a file over whole runs ----

  /** What a step, taken with the files d, makes of the content prev of f. */
  function NextContent(d: Disk, s: Step, f: string, prev: Option<string>): Option<string> {
    if s.file != f then prev
    else match s
      case Create(_) => if prev.None? then Some("") else prev
      case Delete(_) => None
      case Commit(_, n, ops) =>
        var text := if prev.Some? then prev.value else "";
        if Locate(text, n).Missing? then prev else Some(CommitText(text, n, ops))
      case Undo(_) => if Bak(f) in d then Some(d[Bak(f)]) else prev
      case Checkpoint(_, _) => prev
      case Revert(_, tag) => if CheckpointPath(f, tag) in d then Some(d[CheckpointPath(f, tag)]) else prev
  }

  function ContentHistory(d: Disk, run: seq<Step>, f: string): Option<string> {
    if run == [] then Get(d, Live(f))
    else
      var k := |run| - 1;
      NextContent(After(d, run[..k]), run[k], f, ContentHistory(d, run[..k], f))
  }

  /** A step on another name that does not have the file of f among its paths. */
  predicate Away(s: Step, f: string) { s.file == f || Live(s.file) == "" || Live(f) !in Touched(s) }

  lemma ContentStep(d: Disk, s: Step, f: string)
    requires Live(f) != "" && "" !in d && Away(s, f)
    ensures Get(Exec(d, s).0, Live(f)) == NextContent(d, s, f, Get(d, Live(f)))
  {
    hide Live, Bak, Tmp, CheckpointPath, CommitDisk, Locate, CommitText;
    StepTouches(d, s);
    TmpNotLive(f);
    if s.file == f {
      if s.Commit? { CommitEffect(d, f, s.sentence, s.ops); }
      if s.Checkpoint? || s.Revert? { NotItsCheckpoint(f, s.tag); }
    }
  }

  /** Over every run the content of f is changed by its own commands alone: an existing file by its deletion, commits,
      undos and reverts, an absent one by its creation, commits, undos and reverts. */
  lemma {:induction false} ContentOverRuns(d: Disk, run: seq<Step>, f: string)
    requires Live(f) != "" && "" !in d && forall i :: 0 <= i < |run| ==> Away(run[i], f)
    ensures Get(After(d, run), Live(f)) == ContentHistory(d, run, f)
  {
    hide Live, Exec, NextContent, Away;
    if run != [] {
      var r := run[..|run| - 1];
      ContentOverRuns(d, r, f);
      NoEmptyPath(d, r);
      ContentStep(After(d, r), run[|run| - 1], f);
    }
  }

  // ---- Undo over whole runs ----

  /** The step's name has no live path that is the backup of f, and no checkpoint of it goes there. */
  predicate Spares(s: Step, f: string) {
    Live(s.file) != "" ==> Live(s.file) != Bak(f) && (s.Checkpoint? ==> CheckpointPath(s.file, s.tag) != Bak(f))
  }

  /** Such a step leaves the backup of f, unless it commits or undoes f. */
  lemma StepSpares(d: Disk, s: Step, f: string)
    requires Spares(s, f) && Live(f) != "" && "" !in d
    ensures !(s.file == f && (s.Undo? || s.Commit?)) ==> Get(Exec(d, s).0, Bak(f)) == Get(d, Bak(f))
  {
    hide Live, Bak, Tmp, CheckpointPath, Exec, Get;
    StepTouches(d, s);
    TmpNotLive(f);
    if Live(s.file) != "" { PathsCollide(f, s.file); PathsCollide(s.file, f); }
  }

  predicate Exists(d: Disk, f: string) { Live(f) in d }

  /** Step i commits to an existing sentence of an existing file, so it takes a backup of f. */
  predicate BacksUp(d: Disk, run: seq<Step>, i: nat, f: string)
    requires i < |run|
  {
    var at, s := After(d, run[..i]), run[i];
    s.Commit? && s.file == f && Exists(at, f) && Locate(at[Live(f)], s.sentence).Place?
  }

  predicate UndoneAt(d: Disk, run: seq<Step>, i: nat, f: string)
    requires i < |run|
  {
    run[i] == Undo(f) && Exec(After(d, run[..i]), run[i]).1
  }

  /** Step i took a backup of f that no later step took back. */
  predicate Pending(d: Disk, run: seq<Step>, i: nat, f: string)
    requires i < |run|
  {
    BacksUp(d, run, i, f) && forall j :: i < j < |run| ==> !UndoneAt(d, run, j, f)
  }

  /** The last backup taken, when no successful undo came after it. */
  predicate LastPending(d: Disk, run: seq<Step>, i: nat, f: string)
    requires i < |run|
  {
    Pending(d, run, i, f) && forall j :: i < j < |run| ==> !BacksUp(d, run, j, f)
  }

  lemma {:induction false} NoEmptyPath(d: Disk, run: seq<Step>)
    requires "" !in d
    ensures "" !in After(d, run)
  {
    if run != [] {
      NoEmptyPath(d, run[..|run| - 1]);
      StepTouches(After(d, run[..|run| - 1]), run[|run| - 1]);
    }
  }

  lemma PrefixRun(d: Disk, run: seq<Step>, k: nat, f: string)
    requires k <= |run|
    ensures forall i :: 0 <= i < k ==> run[..k][..i] == run[..i]
    ensures forall i :: 0 <= i < k ==> (BacksUp(d, run[..k], i, f) <==> BacksUp(d, run, i, f))
    ensures forall i :: 0 <= i < k ==> (UndoneAt(d, run[..k], i, f) <==> UndoneAt(d, run, i, f))
  {
    assert forall i :: 0 <= i < k ==> run[..k][..i] == run[..i];
    hide After, Exec;
  }

  /** What one step does to the backup of f. */
  lemma BackupStep(d: Disk, s: Step, f: string)
    requires Spares(s, f) && Live(f) != "" && "" !in d
    ensures var d' := Exec(d, s).0;
      if s.Commit? && s.file == f && Exists(d, f) && Locate(d[Live(f)], s.sentence).Place?
      then Get(d', Bak(f)) == Some(d[Live(f)])
      else if s == Undo(f) && Exec(d, s).1 then Get(d', Bak(f)) == None
      else Get(d', Bak(f)) == Get(d, Bak(f))
  {
    hide Live, Bak, Tmp, CommitDisk;
    StepSpares(d, s, f);
    TmpNotLive(f);
    if s.Commit? && s.file == f {
      CommitEffect(d, f, s.sentence, s.ops);
      if !Exists(d, f) { CommitNew(f, s.sentence, s.ops, d); }
    }
  }

  lemma CommitNew(f: string, n: int, ops: seq<Write>, d: Disk)
    requires Live(f) !in d && Live(f) != ""
    ensures Get(CommitDisk(d, f, n, ops), Bak(f)) == Get(d, Bak(f))
  {
    CommitEffect(d, f, n, ops);
    hide CommitDisk, Live, Bak;
  }

  /** The commit whose backup is in place after the run. */
  function Standing(d: Disk, run: seq<Step>, f: string): (r: Option<nat>)
    ensures r.Some? ==> r.value < |run|
  {
    if run == [] then None
    else
      var k := |run| - 1;
      if BacksUp(d, run, k, f) then Some(k)
      else if UndoneAt(d, run, k, f) then None
      else Standing(d, run[..k], f)
  }

  lemma {:induction false} StandingIsLastPending(d: Disk, run: seq<Step>, f: string)
    ensures Standing(d, run, f).Some? <==> exists i :: 0 <= i < |run| && Pending(d, run, i, f)
    ensures forall i :: 0 <= i < |run| ==> (Standing(d, run, f) == Some(i) <==> LastPending(d, run, i, f))
  {
    hide BacksUp, UndoneAt;
    if run != [] {
      var k := |run| - 1;
      var r := run[..k];
      StandingIsLastPending(d, r, f);
      PrefixRun(d, run, k, f);
      if BacksUp(d, run, k, f) {
        assert Pending(d, run, k, f);
      } else if UndoneAt(d, run, k, f) {
        assert forall i :: 0 <= i < |run| ==> !Pending(d, run, i, f);
      } else {
        assert forall i :: 0 <= i < k ==> (Pending(d, run, i, f) <==> Pending(d, r, i, f));
        assert forall i :: 0 <= i < k ==> (LastPending(d, run, i, f) <==> LastPending(d, r, i, f));
        assert !Pending(d, run, k, f);
      }
    }
  }

  lemma {:induction false} StandingBackup(d: Disk, run: seq<Step>, f: string)
    requires (forall i :: 0 <= i < |run| ==> Spares(run[i], f)) && Live(f) != "" && "" !in d && Bak(f) !in d
    ensures match Standing(d, run, f)
      case None => Bak(f) !in After(d, run)
      case Some(i) => Get(After(d, run), Bak(f)) == Get(After(d, run[..i]), Live(f)) && Exists(After(d, run[..i]), f)
  {
    hide Live, Bak, Exec, Spares;
    if run != [] {
      var k := |run| - 1;
      var r := run[..k];
      StandingBackup(d, r, f);
      NoEmptyPath(d, r);
      BackupStep(After(d, r), run[k], f);
      PrefixRun(d, run, k, f);
    }
  }

  /** Undo succeeds exactly when some commit on an existing file was not undone since, and it restores the content just
      before the latest such commit. */
  ghost predicate UndoRestores(d: Disk, run: seq<Step>, f: string) {
    && (Exec(After(d, run), Undo(f)).1 <==> exists i :: 0 <= i < |run| && Pending(d, run, i, f))
    && (forall i :: 0 <= i < |run| && LastPending(d, run, i, f) ==>
          && Exists(After(d, run[..i]), f)
          && Get(Exec(After(d, run), Undo(f)).0, Live(f)) == Get(After(d, run[..i]), Live(f)))
  }

  /** With no backup at the start undo restores, whatever else the run does, when no step has the backup as its file. */
  lemma UndoOverRuns(d: Disk, run: seq<Step>, f: string)
    requires (forall i :: 0 <= i < |run| ==> Spares(run[i], f)) && Live(f) != "" && "" !in d && Bak(f) !in d
    ensures UndoRestores(d, run, f)
  {
    hide Live, Bak, After, Standing, Pending, LastPending, Spares;
    StandingIsLastPending(d, run, f);
    StandingBackup(d, run, f);
    TmpNotLive(f);
  }

  /** The names and the tags a run uses. */
  ghost predicate Uses(run: seq<Step>, names: iset<string>, tags: iset<string>) {
    forall i :: 0 <= i < |run| ==> run[i].file in names && (run[i].Checkpoint? ==> run[i].tag in tags)
  }

  /** That condition is exact: over the runs on given names and tags undo always restores if and only if none of the
      names is that of the backup of f, and none of the checkpoints is it. */
  lemma UndoExactly(f: string, names: iset<string>, tags: iset<string>)
    requires f in names && Live(f) != ""
    ensures (forall d: Disk, run: seq<Step> :: Uses(run, names, tags) && "" !in d && Bak(f) !in d ==>
      UndoRestores(d, run, f))
            <==> (forall g :: g in names && Live(g) != "" ==>
                    g != f + ".bak" && forall tag :: tag in tags ==> CheckpointPath(g, tag) != Bak(f))
  {
    hide Live, Bak, CheckpointPath, UndoRestores, HasDotDot;
    var b := f + ".bak";
    if b in names && Live(b) != "" {
      BackupPlanted(f, b, "");
      assert Uses([Create(b)], names, tags);
    } else if g, tag :| g in names && Live(g) != "" && tag in tags && CheckpointPath(g, tag) == Bak(f) {
      BackupPlanted(f, g, tag);
      assert Uses([Create(g), Checkpoint(g, tag)], names, tags);
    } else {
      forall d: Disk, run: seq<Step> | Uses(run, names, tags) && "" !in d && Bak(f) !in d
        ensures UndoRestores(d, run, f)
      {
        forall i | 0 <= i < |run| ensures Spares(run[i], f) {
          if Live(run[i].file) != "" { PathsCollide(f, run[i].file); }
          assert run[i].Checkpoint? ==> run[i].tag in tags;
        }
        UndoOverRuns(d, run, f);
      }
    }
  }

  /** Two ways to put a file where the backup of f would be, with no commit. */
  lemma BackupPlanted(f: string, g: string, tag: string)
    requires Live(f) != "" && Live(g) != ""
    ensures g == f + ".bak" ==> !UndoRestores(map[], [Create(g)], f)
    ensures CheckpointPath(g, tag) == Bak(f) ==> !UndoRestores(map[], [Create(g), Checkpoint(g, tag)], f)
  {
    hide CheckpointPath, HasDotDot, Pending;
    TmpNotLive(f);
    NotItsCheckpoint(g, tag);
    PathsCollide(f, g);
    hide Live, Bak;
    var one, two := [Create(g)], [Create(g), Checkpoint(g, tag)];
    assert one[..0] == [] && two[..1] == one;
    assert After(map[], one) == map[Live(g) := ""];
    assert After(map[], two) == Exec(After(map[], one), Checkpoint(g, tag)).0;
    NothingPending(map[], one, f);
    NothingPending(map[], two, f);
  }

  lemma NothingPending(d: Disk, run: seq<Step>, f: string)
    requires forall i :: 0 <= i < |run| ==> !run[i].Commit?
    ensures forall i :: 0 <= i < |run| ==> !Pending(d, run, i, f)
  {
    hide After;
  }

  // ---- Checkpoints over whole runs ----

  predicate SavesAt(d: Disk, run: seq<Step>, i: nat, f: string, tag: string)
    requires i < |run|
  {
    run[i] == Checkpoint(f, tag) && Exec(After(d, run[..i]), run[i]).1
  }

  /** No step but that checkpoint itself may change its file. */
  predicate Leaves(s: Step, f: string, tag: string) {
    Live(s.file) == "" || s == Checkpoint(f, tag) || CheckpointPath(f, tag) !in Touched(s)
  }

  lemma CheckpointStep(d: Disk, s: Step, f: string, tag: string)
    requires Leaves(s, f, tag) && "" !in d
    ensures Get(Exec(d, s).0, CheckpointPath(f, tag))
      == if s == Checkpoint(f, tag) && Exec(d, s).1 then Get(d, Live(f)) else Get(d, CheckpointPath(f, tag))
    ensures s == Checkpoint(f, tag) && Exec(d, s).1 ==> Exists(d, f)
  {
    hide Bak, Tmp, Touched, Live, CheckpointPath, CommitDisk;
    StepTouches(d, s);
    NotItsCheckpoint(f, tag);
  }

  lemma NotItsCheckpoint(f: string, tag: string)
    ensures Live(f) != CheckpointPath(f, tag) && CheckpointPath(f, tag) != ""
  {
    assert |Live(f)| < |CheckpointPath(f, tag)|;
  }

  lemma {:induction false} SavedOverRuns(d: Disk, run: seq<Step>, f: string, tag: string, i: nat)
    requires (forall j :: 0 <= j < |run| ==> Leaves(run[j], f, tag)) && "" !in d
    requires i < |run| && LastSave(d, run, i, f, tag)
    ensures Exists(After(d, run[..i]), f)
    ensures Get(After(d, run), CheckpointPath(f, tag)) == Get(After(d, run[..i]), Live(f))
    decreases |run|
  {
    hide Live, CheckpointPath, Leaves, Exec, Exists, Get;
    var k := |run| - 1;
    var r := run[..k];
    NoEmptyPath(d, r);
    assert i < k ==> !SavesAt(d, run, k, f, tag);
    CheckpointStep(After(d, r), run[k], f, tag);
    if i < k {
      SavesInPrefix(d, run, k, f, tag);
      SavedOverRuns(d, r, f, tag, i);
      assert r[..i] == run[..i];
    }
  }

  lemma SavesInPrefix(d: Disk, run: seq<Step>, k: nat, f: string, tag: string)
    requires k <= |run|
    ensures forall i :: 0 <= i < k ==> (SavesAt(d, run[..k], i, f, tag) <==> SavesAt(d, run, i, f, tag))
  {
    assert forall i :: 0 <= i < k ==> run[..k][..i] == run[..i];
    hide After, Exec;
  }

  predicate LastSave(d: Disk, run: seq<Step>, i: nat, f: string, tag: string)
    requires i < |run|
  {
    SavesAt(d, run, i, f, tag) && forall j :: i < j < |run| ==> !SavesAt(d, run, j, f, tag)
  }

  /** Reverting puts back exactly the content f had at its last successful checkpoint under the tag. */
  ghost predicate RevertRestores(d: Disk, run: seq<Step>, f: string, tag: string) {
    forall i :: 0 <= i < |run| && LastSave(d, run, i, f, tag) ==>
      && Get(After(d, run), CheckpointPath(f, tag)) == Get(After(d, run[..i]), Live(f))
      && Exec(After(d, run), Revert(f, tag)).1
      && Get(Exec(After(d, run), Revert(f, tag)).0, Live(f)) == Get(After(d, run[..i]), Live(f))
  }

  /** Whatever else ran, when no other step may change the file of the checkpoint. */
  lemma CheckpointOverRuns(d: Disk, run: seq<Step>, f: string, tag: string)
    requires (forall i :: 0 <= i < |run| ==> Leaves(run[i], f, tag)) && "" !in d && Live(f) != ""
    ensures RevertRestores(d, run, f, tag)
  {
    hide Live, CheckpointPath, Leaves, After, SavesAt;
    forall i | 0 <= i < |run| && LastSave(d, run, i, f, tag)
      ensures Get(After(d, run), CheckpointPath(f, tag)) == Get(After(d, run[..i]), Live(f)) &&
        Exists(After(d, run[..i]), f)
    {
      SavedOverRuns(d, run, f, tag, i);
    }
    NotItsCheckpoint(f, tag);
  }

  lemma RunOn(d: Disk, run: seq<Step>, s: Step)
    ensures After(d, run + [s]) == Exec(After(d, run), s).0
  {
    assert (run + [s])[..|run|] == run;
  }

  /** A checkpoint saved as the run starts, and nothing of it left at the end. */
  lemma SavedFirst(f: string, tag: string, rest: seq<Step>)
    requires Live(f) != "" && (forall i :: 0 <= i < |rest| ==> rest[i] != Checkpoint(f, tag))
    ensures var run, d := [Create(f), Checkpoint(f, tag)] + rest, map[Live(f) := "", CheckpointPath(f, tag) := ""];
      && After(map[], [Create(f), Checkpoint(f, tag)]) == d
      && (RevertRestores(map[], run, f, tag) ==> Get(After(map[], run), CheckpointPath(f, tag)) == Some(""))
  {
    hide HasDotDot, Get;
    NotItsCheckpoint(f, tag);
    hide Live, CheckpointPath;
    var one, two := [Create(f)], [Create(f), Checkpoint(f, tag)];
    var run := two + rest;
    assert one[..0] == [] && two[..1] == one && run[..1] == one;
    assert After(map[], one) == map[Live(f) := ""];
    assert After(map[], two) == map[Live(f) := "", CheckpointPath(f, tag) := ""];
    assert SavesAt(map[], run, 1, f, tag);
    assert forall j :: 1 < j < |run| ==> run[j] == rest[j - 2];
    assert LastSave(map[], run, 1, f, tag);
    assert Get(After(map[], run[..1]), Live(f)) == Some("") by { GetIs(map[Live(f) := ""], Live(f)); }
  }

  lemma GetIs(d: Disk, p: string)
    requires p in d
    ensures Get(d, p) == Some(d[p])
  {
  }

  /** Three ways to lose the file of a checkpoint, for a name one of whose paths it is. */
  lemma CheckpointLost(f: string, tag: string, g: string, s: Step)
    requires Live(f) != "" && Live(g) != ""
    requires var p := CheckpointPath(f, tag);
      || (p == Live(g) && s == Delete(g))
      || (p == Bak(g) && s == Undo(g))
      || (p == Tmp(g) && s == Commit(g, 0, []))
    ensures !RevertRestores(map[], [Create(f), Checkpoint(f, tag), s], f, tag)
  {
    hide HasDotDot, RevertRestores, CommitDisk;
    TmpNotLive(g);
    NotItsCheckpoint(f, tag);
    SavedFirst(f, tag, [s]);
    hide Live, CheckpointPath, Bak, Tmp;
    var two := [Create(f), Checkpoint(f, tag)];
    assert two + [s] == [Create(f), Checkpoint(f, tag), s];
    RunOn(map[], two, s);
    var d := After(map[], two);
    hide After;
    if s.Commit? {
      CommitEffect(d, g, 0, []);
      FirstSentence(if Live(g) in d then d[Live(g)] else "", 0);
    }
  }

  /** And another checkpoint with the same path overwrites it. */
  lemma CheckpointOverwritten(f: string, tag: string, g: string, u: string)
    requires Live(f) != "" && Live(g) != "" && f != g && CheckpointPath(f, tag) == CheckpointPath(g, u)
    requires CheckpointPath(f, tag) !in {Live(g), Bak(g), Tmp(g)}
    ensures var w := Commit(g, 0, [Write(0, "x")]);
      !RevertRestores(map[], [Create(f), Checkpoint(f, tag), w, Checkpoint(g, u)], f, tag)
  {
    hide HasDotDot, RevertRestores, CommitDisk, CommitText, Locate;
    var w, c := Commit(g, 0, [Write(0, "x")]), Checkpoint(g, u);
    var two := [Create(f), Checkpoint(f, tag)];
    SavedFirst(f, tag, [w, c]);
    PathsCollide(f, g);
    NotItsCheckpoint(f, tag);
    hide Live, CheckpointPath, Bak, Tmp;
    assert two + [w, c] == two + [w] + [c] == [Create(f), Checkpoint(f, tag), w, c];
    RunOn(map[], two, w);
    RunOn(map[], two + [w], c);
    var d := After(map[], two);
    hide After;
    CommitEffect(d, g, 0, w.ops);
    FirstSentence("", 0);
    NewText(w.ops[0]);
  }

  lemma NewText(op: Write)
    requires op.index == 0 && op.content != ""
    ensures CommitText("", 0, [op]) != ""
  {
    hide CommitText, Rewrite, Body, Tail;
    CommitFirst("", 0, [op]);
    RewriteFirst(Body(""), op.content);
  }

  /** Only commits, undos, creations, deletions and checkpoints of colliding names can disturb a checkpoint: over the
      runs on given names and tags reverting always restores if and only if no name has it as one of its three paths
      and no other name has a checkpoint there. */
  lemma CheckpointExactly(f: string, tag: string, names: iset<string>, tags: iset<string>)
    requires f in names && tag in tags && Live(f) != ""
    ensures (forall d: Disk, run: seq<Step> :: Uses(run, names, tags) && "" !in d ==> RevertRestores(d, run, f, tag))
            <==> (forall g :: g in names && Live(g) != "" ==>
                    && CheckpointPath(f, tag) !in {Live(g), Bak(g), Tmp(g)}
                    && forall u :: u in tags && CheckpointPath(g, u) == CheckpointPath(f, tag) ==> g == f)
  {
    hide Live, Bak, Tmp, CheckpointPath, RevertRestores, HasDotDot;
    var p := CheckpointPath(f, tag);
    if g :| g in names && Live(g) != "" && p in {Live(g), Bak(g), Tmp(g)} {
      var s := if p == Live(g) then Delete(g) else if p == Bak(g) then Undo(g) else Commit(g, 0, []);
      CheckpointLost(f, tag, g, s);
      assert Uses([Create(f), Checkpoint(f, tag), s], names, tags);
    } else if g, u :| g in names && Live(g) != "" && u in tags && CheckpointPath(g, u) == p && g != f {
      CheckpointOverwritten(f, tag, g, u);
      assert Uses([Create(f), Checkpoint(f, tag), Commit(g, 0, [Write(0, "x")]), Checkpoint(g, u)], names, tags);
    } else {
      forall d: Disk, run: seq<Step> | Uses(run, names, tags) && "" !in d ensures RevertRestores(d, run, f, tag) {
        forall i | 0 <= i < |run| ensures Leaves(run[i], f, tag) {
          var s := run[i];
          if s.Checkpoint? && s.file == f && CheckpointPath(f, s.tag) == p { SameTag(f, s.tag, tag); }
        }
        CheckpointOverRuns(d, run, f, tag);
      }
    }
  }

  lemma SameTag(f: string, t: string, u: string)
    requires CheckpointPath(f, t) == CheckpointPath(f, u)
    ensures t == u
  {
    PrefixCut(ROOT + CHECKPOINTS + f + ".", t, u);
  }

  lemma PrefixShows(f: string, x: string, rest: string)
    requires ROOT + f + x == ROOT + CHECKPOINTS + rest && '/' !in x
    ensures CHECKPOINTS <= f
  {
    var y, k := CHECKPOINTS + rest, |CHECKPOINTS|;
    assert ROOT + f + x == ROOT + (f + x) && ROOT + CHECKPOINTS + rest == ROOT + y;
    PrefixCut(ROOT, f + x, y);
    assert y[k - 1] == CHECKPOINTS[k - 1] == '/';
    InFront(f, x, '/', k - 1);
    assert f == (f + x)[..|f|] && f[..k] == y[..k] == CHECKPOINTS;
  }

  /** Names outside the checkpoint directory and tags without dots meet that condition. */
  lemma OrdinaryNames(f: string, tag: string, g: string, u: string)
    requires !(CHECKPOINTS <= g) && Live(g) != "" && '.' !in tag && '.' !in u
    ensures CheckpointPath(f, tag) !in {Live(g), Bak(g), Tmp(g)}
    ensures CheckpointPath(g, u) == CheckpointPath(f, tag) ==> g == f
  {
    var rest := f + "." + tag;
    assert CheckpointPath(f, tag) == ROOT + CHECKPOINTS + rest;
    assert ROOT + g + "" == ROOT + g;
    if CheckpointPath(f, tag) == Live(g) { PrefixShows(g, "", rest); }
    if CheckpointPath(f, tag) == Bak(g) { PrefixShows(g, ".bak", rest); }
    if CheckpointPath(f, tag) == Tmp(g) { PrefixShows(g, ".tmp", rest); }
    if CheckpointPath(g, u) == CheckpointPath(f, tag) { CheckpointInjective(g, u, f, tag); }
  }
}
