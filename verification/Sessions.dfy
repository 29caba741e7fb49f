/** Write sessions of any number of connections, with the commit broken into the steps between which
    other threads run and the machine may stop. */
module Sessions {
  import opened Text
  import opened Sentences
  import opened Words
  import opened Commit
  import opened FileStore

  /** What a connection has asked for: its lock and its buffered writes, newest first. */
  datatype Edit = Edit(file: string, sentence: int, ops: seq<Write>)

  const NO_EDIT := Edit("", -1, [])

  /** How far a connection is through commit_changes. `before` is the content it read, if the file existed. */
  datatype Phase =
    | Idle
    | Holding
    | NoSuchSentence
    | Writing(before: Option<string>, text: string, done: nat)
    | BackedUp(before: Option<string>, text: string)
    | Installed(before: Option<string>, text: string)

  datatype Conn = Conn(edit: Edit, phase: Phase)

  datatype State = State(disk: Disk, conns: seq<Conn>, holder: Option<nat>)

  datatype Event =
    | Open
    | Close(c: nat)
    | LockSentence(c: nat, file: string, sentence: int)
    | WriteData(c: nat, index: int, content: string)
    | RefusePath(c: nat)             // COMMIT_WRITE on an unsafe name returns at once
    | TakeMutex(c: nat)              // COMMIT_WRITE: pthread_mutex_lock
    | Load(c: nat)                   // read the file, rebuild the sentence, open the temporary file
    | Put(c: nat, amount: nat)       // some bytes reach the temporary file
    | BackUp(c: nat)                 // rename live to backup, if the file existed
    | Install(c: nat)                // rename temporary to live
    | Finish(c: nat)                 // unlock, drop the buffered writes, forget the lock

  predicate Enabled(s: State, e: Event) {
    if e.Open? then true
    else if e.c >= |s.conns| then false
    else
      var conn := s.conns[e.c];
      match e
      case LockSentence(_, _, _) => conn.phase.Idle?
      case WriteData(_, _, _) => conn.phase.Idle?
      case Close(_) => conn.phase.Idle?
      case RefusePath(_) => conn.phase.Idle? && Live(conn.edit.file) == ""
      case TakeMutex(_) => conn.phase.Idle? && Live(conn.edit.file) != "" && s.holder.None?
      case Load(_) => conn.phase.Holding?
      case Put(_, amount) => conn.phase.Writing? && conn.phase.done + amount <= |conn.phase.text|
      case BackUp(_) => conn.phase.Writing? && conn.phase.done == |conn.phase.text|
      case Install(_) => conn.phase.BackedUp?
      case Finish(_) => conn.phase.Installed? || conn.phase.NoSuchSentence?
  }

  function SetConn(s: State, c: nat, conn: Conn): State
    requires c < |s.conns|
  {
    s.(conns := s.conns[c := conn])
  }

  function Do(s: State, e: Event): State
    requires Enabled(s, e)
  {
    if e.Open? then s.(conns := s.conns + [Conn(NO_EDIT, Idle)])
    else
      var conn := s.conns[e.c];
      var f := conn.edit.file;
      match e
      case LockSentence(c, file, n) => SetConn(s, c, conn.(edit := conn.edit.(file := file, sentence := n)))
      case WriteData(c, i, text) => SetConn(s, c, conn.(edit := conn.edit.(ops := [Write(i, text)] + conn.edit.ops)))
      case Close(c) => SetConn(s, c, Conn(NO_EDIT, Idle))
      case RefusePath(c) => SetConn(s, c, Conn(NO_EDIT, Idle))
      case TakeMutex(c) => SetConn(s, c, conn.(phase := Holding)).(holder := Some(c))
      case Load(c) =>
        var before := Get(s.disk, Live(f));
        var content := if before.Some? then before.value else "";
        if Locate(content, conn.edit.sentence).Missing? then SetConn(s, c, conn.(phase := NoSuchSentence))
        else
          var text := CommitText(content, conn.edit.sentence, conn.edit.ops);
          SetConn(s, c, conn.(phase := Writing(before, text, 0))).(disk := s.disk[Tmp(f) := ""])
      case Put(c, amount) =>
        var done := conn.phase.done + amount;
        SetConn(s, c, conn.(phase := conn.phase.(done := done))).(disk := s.disk[Tmp(f) := conn.phase.text[..done]])
      case BackUp(c) =>
        var disk := if conn.phase.before.Some? then Rename(s.disk, Live(f), Bak(f)).0 else s.disk;
        SetConn(s, c, conn.(phase := BackedUp(conn.phase.before, conn.phase.text))).(disk := disk)
      case Install(c) =>
        SetConn(s, c, conn.(phase := Installed(conn.phase.before, conn.phase.text)))
          .(disk := Rename(s.disk, Tmp(f), Live(f)).0)
      case Finish(c) => SetConn(s, c, Conn(NO_EDIT, Idle)).(holder := None)
  }

  predicate Run(d: Disk, es: seq<Event>)
    decreases |es|, 0
  {
    es == [] || (Run(d, es[..|es| - 1]) && Enabled(End(d, es[..|es| - 1]), es[|es| - 1]))
  }

  function End(d: Disk, es: seq<Event>): State
    requires Run(d, es)
    decreases |es|, 1
  {
    if es == [] then State(d, [], None) else Do(End(d, es[..|es| - 1]), es[|es| - 1])
  }

  /** The names in use: those locked, and the empty one of a connection that has locked none. */
  ghost predicate Locks(es: seq<Event>, names: iset<string>) {
    "" in names && forall i :: 0 <= i < |es| && es[i].LockSentence? ==> es[i].file in names
  }

  /** No name in use is another one's with the suffix of its backup or temporary file. */
  ghost predicate Apart(names: iset<string>) {
    forall f, g :: f in names && g in names && Live(f) != "" && Live(g) != "" ==> g != f + ".bak" && g != f + ".tmp"
  }

  // ---- What the events alone say the outcome must be ----

  function NextRequest(req: Edit, e: Event, c: nat): Edit {
    if e.Open? || e.c != c then req
    else match e
      case LockSentence(_, f, n) => req.(file := f, sentence := n)
      case WriteData(_, i, text) => req.(ops := [Write(i, text)] + req.ops)
      case Finish(_) => NO_EDIT
      case RefusePath(_) => NO_EDIT
      case Close(_) => NO_EDIT
      case _ => req
  }

  /** The connection's lock and its writes since its previous commit, newest first. */
  function Request(es: seq<Event>, c: nat): Edit {
    if es == [] then NO_EDIT else NextRequest(Request(es[..|es| - 1], c), es[|es| - 1], c)
  }

  // ---- What a request holds, by the positions of the events alone ----

  /** The session of c ends: its writes and its lock are forgotten. */
  predicate Ends(e: Event, c: nat) { (e.Finish? || e.RefusePath? || e.Close?) && e.c == c }

  /** Event k belongs to the session of c that is still open after the run. */
  ghost predicate Current(es: seq<Event>, k: nat, c: nat) {
    k < |es| && forall m :: k <= m < |es| ==> !Ends(es[m], c)
  }

  /** Event k is the write w of the open session of c. */
  ghost predicate WroteAt(es: seq<Event>, k: nat, c: nat, w: Write) {
    k < |es| && es[k] == WriteData(c, w.index, w.content) && Current(es, k, c)
  }

  ghost predicate LockedAt(es: seq<Event>, k: nat, c: nat, file: string, sentence: int) {
    k < |es| && es[k] == LockSentence(c, file, sentence) && Current(es, k, c)
  }

  ghost predicate LastLock(es: seq<Event>, k: nat, c: nat, file: string, sentence: int) {
    LockedAt(es, k, c, file, sentence) && forall m: nat, g, o :: LockedAt(es, m, c, g, o) ==> m <= k
  }

  lemma CurrentSnoc(es: seq<Event>, e: Event, k: nat, c: nat)
    requires k < |es|
    ensures Current(es + [e], k, c) <==> Current(es, k, c) && !Ends(e, c)
    ensures (es + [e])[k] == es[k]
  {
    assert forall m :: k <= m < |es| ==> (es + [e])[m] == es[m];
    assert (es + [e])[|es|] == e;
  }

  lemma RequestSnoc(es: seq<Event>, e: Event, c: nat)
    ensures Request(es + [e], c) == NextRequest(Request(es, c), e, c)
  {
    hide NextRequest;
    assert (es + [e])[..|es|] == es;
  }

  lemma WroteSnoc(es: seq<Event>, e: Event, c: nat, k: nat, w: Write)
    ensures WroteAt(es + [e], k, c, w)
      <==> (WroteAt(es, k, c, w) && !Ends(e, c)) || (k == |es| && e == WriteData(c, w.index, w.content))
  {
    if k < |es| { CurrentSnoc(es, e, k, c); }
  }

  /** The events at the given positions, the last one first, are all the writes of the open session of c. */
  ghost predicate WritesAre(es: seq<Event>, c: nat, at: seq<nat>, ops: seq<Write>) {
    && |at| == |ops|
    && (forall j :: 0 <= j < |at| ==> WroteAt(es, at[j], c, ops[j]))
    && (forall i, j :: 0 <= i < j < |at| ==> at[i] > at[j])
    && (forall k: nat, w :: WroteAt(es, k, c, w) ==> k in at)
  }

  lemma WritesSnoc(es: seq<Event>, e: Event, c: nat, at: seq<nat>, ops: seq<Write>)
    requires WritesAre(es, c, at, ops)
    ensures Ends(e, c) ==> WritesAre(es + [e], c, [], [])
    ensures e.WriteData? && e.c == c ==> WritesAre(es + [e], c, [|es|] + at, [Write(e.index, e.content)] + ops)
    ensures !Ends(e, c) && !(e.WriteData? && e.c == c) ==> WritesAre(es + [e], c, at, ops)
  {
    forall k: nat, w ensures WroteAt(es + [e], k, c, w)
      <==> (WroteAt(es, k, c, w) && !Ends(e, c)) || (k == |es| && e == WriteData(c, w.index, w.content))
    {
      WroteSnoc(es, e, c, k, w);
    }
    assert forall k: nat, w :: WroteAt(es, k, c, w) ==> k < |es|;
    hide WroteAt;
    assert forall j :: 0 <= j < |at| ==> at[j] < |es|;
  }

  /** The writes of a request are those of the open session, all of them, the last one sent first. */
  lemma {:induction false} RequestWrites(es: seq<Event>, c: nat) returns (at: seq<nat>)
    ensures WritesAre(es, c, at, Request(es, c).ops)
  {
    if es == [] {
      at := [];
    } else {
      hide WritesAre, Request;
      var n := |es| - 1;
      var earlier, e := es[..n], es[n];
      assert es == earlier + [e];
      var before := RequestWrites(earlier, c);
      RequestSnoc(earlier, e, c);
      WritesSnoc(earlier, e, c, before, Request(earlier, c).ops);
      at := if Ends(e, c) then [] else if e.WriteData? && e.c == c then [n] + before else before;
    }
  }

  /** The file and the sentence are those the open session locked last; without a lock there is neither. */
  ghost predicate LockIs(es: seq<Event>, c: nat, file: string, sentence: int) {
    && (forall k: nat, f, n :: LastLock(es, k, c, f, n) ==> file == f && sentence == n)
    && ((forall k: nat, f, n :: !LockedAt(es, k, c, f, n)) ==> file == "" && sentence == -1)
  }

  lemma LockedSnoc(es: seq<Event>, e: Event, c: nat, k: nat, f: string, n: int)
    ensures LockedAt(es + [e], k, c, f, n)
      <==> (LockedAt(es, k, c, f, n) && !Ends(e, c)) || (k == |es| && e == LockSentence(c, f, n))
  {
    if k < |es| { CurrentSnoc(es, e, k, c); }
  }

  lemma LockSnoc(es: seq<Event>, e: Event, c: nat, file: string, n: int)
    requires LockIs(es, c, file, n)
    ensures Ends(e, c) ==> LockIs(es + [e], c, "", -1)
    ensures e.LockSentence? && e.c == c ==> LockIs(es + [e], c, e.file, e.sentence)
    ensures !Ends(e, c) && !(e.LockSentence? && e.c == c) ==> LockIs(es + [e], c, file, n)
  {
    forall k: nat, f, n ensures LockedAt(es + [e], k, c, f, n)
      <==> (LockedAt(es, k, c, f, n) && !Ends(e, c)) || (k == |es| && e == LockSentence(c, f, n))
    {
      LockedSnoc(es, e, c, k, f, n);
    }
    assert forall k: nat, f, n :: LockedAt(es, k, c, f, n) ==> k < |es|;
    hide LockedAt;
    if e.LockSentence? && e.c == c {
      assert LockedAt(es + [e], |es|, c, e.file, e.sentence);
    } else if !Ends(e, c) {
      assert forall k: nat, f, n :: LockedAt(es + [e], k, c, f, n) <==> LockedAt(es, k, c, f, n);
      assert forall k: nat, f, n :: LastLock(es + [e], k, c, f, n) <==> LastLock(es, k, c, f, n);
    }
  }

  lemma {:induction false} RequestLock(es: seq<Event>, c: nat)
    ensures LockIs(es, c, Request(es, c).file, Request(es, c).sentence)
  {
    if es != [] {
      hide LockIs, Request;
      var earlier, e := es[..|es| - 1], es[|es| - 1];
      assert es == earlier + [e];
      RequestLock(earlier, c);
      RequestSnoc(earlier, e, c);
      LockSnoc(earlier, e, c, Request(earlier, c).file, Request(earlier, c).sentence);
    }
  }

  lemma {:induction false} FirstSentAt(ops: seq<Write>, i: int, j: nat)
    requires j < |ops| && ops[j].index == i && forall m :: j < m < |ops| ==> ops[m].index != i
    ensures FirstSent(ops, i) == Some(ops[j].content)
    decreases |ops|
  {
    if j < |ops| - 1 { FirstSentAt(ops[..|ops| - 1], i, j); }
  }

  /** Of the writes of a session to one existing word the edited sentence has the one sent first. */
  lemma FirstSentStays(es: seq<Event>, c: nat, s: string, n: int, k: nat, w: Write)
    requires WroteAt(es, k, c, w) && 0 <= w.index < |Split(Sentence(s, n))|
    requires forall m: nat, v :: WroteAt(es, m, c, v) && v.index == w.index ==> m >= k
    ensures var ws := Edited(s, n, Request(es, c).ops); w.index < |ws| && ws[w.index] == w.content
  {
    hide Request, Split, Sentence, Current;
    var words, ops := Split(Sentence(s, n)), Request(es, c).ops;
    var at := RequestWrites(es, c);
    var j :| 0 <= j < |at| && at[j] == k;
    assert WroteAt(es, at[j], c, ops[j]);
    forall m | j < m < |ops| ensures ops[m].index != w.index { assert WroteAt(es, at[m], c, ops[m]) && at[m] < k; }
    FirstSentAt(ops, w.index, j);
    ApplyGrows(words, ops);
    FirstWriteWins(words, ops, w.index);
  }

  /** All commits, in the order in which they took the mutex. */
  function Commits(es: seq<Event>): seq<Edit> {
    if es == [] then []
    else
      var before, e := Commits(es[..|es| - 1]), es[|es| - 1];
      if e.TakeMutex? then before + [Request(es[..|es| - 1], e.c)] else before
  }

  /** One commit applied to a file that may not exist yet. */
  function CommitFile(content: Option<string>, n: int, ops: seq<Write>): Option<string> {
    var text := if content.Some? then content.value else "";
    if Locate(text, n).Missing? then content else Some(CommitText(text, n, ops))
  }

  /** The commits to f applied one after another. */
  function Replay(d: Disk, cs: seq<Edit>, f: string): Option<string> {
    if cs == [] then Get(d, Live(f))
    else
      var before, c := Replay(d, cs[..|cs| - 1], f), cs[|cs| - 1];
      if c.file == f then CommitFile(before, c.sentence, c.ops) else before
  }

  // ---- The invariant ----

  /** Where the old and the new content of the file under commit are at each step. */
  ghost predicate MidCommit(disk: Disk, conn: Conn, before: Option<string>, after: Option<string>) {
    var f := conn.edit.file;
    var live, bak, tmp := Get(disk, Live(f)), Get(disk, Bak(f)), Get(disk, Tmp(f));
    match conn.phase
    case Idle => false
    case Holding => live == before
    case NoSuchSentence => live == before == after
    case Writing(b, t, k) => b == before && after == Some(t) && k <= |t| && live == before && tmp == Some(t[..k])
    case BackedUp(b, t) => b == before && after == Some(t) && live == None && tmp == Some(t) && (b.Some? ==> bak == b)
    case Installed(b, t) => b == before && after == Some(t) && live == Some(t) && (b.Some? ==> bak == b)
  }

  /** The file under commit, if any. */
  ghost predicate Busy(s: State, f: string) {
    s.holder.Some? && s.holder.value < |s.conns| && s.conns[s.holder.value].edit.file == f
  }

  ghost predicate Buffers(es: seq<Event>, s: State, names: iset<string>) {
    && (forall c :: 0 <= c < |s.conns| ==> s.conns[c].edit == Request(es, c) && s.conns[c].edit.file in names)
    && (forall c: nat :: c >= |s.conns| ==> Request(es, c) == NO_EDIT)
  }

  ghost predicate Mutex(s: State) {
    && (forall c :: 0 <= c < |s.conns| ==> (s.conns[c].phase.Idle? <==> s.holder != Some(c)))
    && (s.holder.Some? ==> s.holder.value < |s.conns| && Live(s.conns[s.holder.value].edit.file) != "")
  }

  ghost predicate Files(d: Disk, es: seq<Event>, s: State, names: iset<string>) {
    var cs := Commits(es);
    && (forall f :: f in names && Live(f) != "" && !Busy(s, f) ==> Get(s.disk, Live(f)) == Replay(d, cs, f))
    && (s.holder.Some? && s.holder.value < |s.conns| ==>
          var conn := s.conns[s.holder.value];
          && cs != [] && cs[|cs| - 1] == conn.edit
          && MidCommit(s.disk, conn, Replay(d, cs[..|cs| - 1], conn.edit.file), Replay(d, cs, conn.edit.file)))
  }

  ghost predicate Inv(d: Disk, es: seq<Event>, s: State, names: iset<string>) {
    "" in names && Apart(names) && Buffers(es, s, names) && Mutex(s) && Files(d, es, s, names)
  }

  lemma BuffersStep(es: seq<Event>, e: Event, s: State, names: iset<string>)
    requires "" in names && Buffers(es, s, names) && Enabled(s, e) && (e.LockSentence? ==> e.file in names)
    ensures Buffers(es + [e], Do(s, e), names)
  {
    hide Rename, Tmp, Live, Bak, CommitText, Locate;
    assert (es + [e])[..|es|] == es;
    assert forall c: nat :: Request(es + [e], c) == NextRequest(Request(es, c), e, c);
    hide Request;
  }

  lemma MutexStep(s: State, e: Event)
    requires Mutex(s) && Enabled(s, e)
    ensures Mutex(Do(s, e))
  {
    hide Rename, Tmp, Live, Bak, CommitText, Locate;
  }

  predicate Buffering(e: Event) {
    e.Open? || e.Close? || e.LockSentence? || e.WriteData? || e.RefusePath?
  }

  lemma FilesBuffering(d: Disk, es: seq<Event>, e: Event, s: State, names: iset<string>)
    requires Inv(d, es, s, names) && Enabled(s, e) && Buffering(e)
    ensures Files(d, es + [e], Do(s, e), names)
  {
    hide Live, Bak, Tmp, Replay, MidCommit, Get;
    assert (es + [e])[..|es|] == es;
    var s' := Do(s, e);
    assert s'.disk == s.disk && s'.holder == s.holder;
    if s.holder.Some? { assert s'.conns[s.holder.value] == s.conns[s.holder.value]; }
  }

  lemma FilesTake(d: Disk, es: seq<Event>, e: Event, s: State, names: iset<string>)
    requires Inv(d, es, s, names) && Enabled(s, e) && e.TakeMutex?
    ensures Files(d, es + [e], Do(s, e), names)
  {
    hide Live, Bak, Tmp, CommitFile, Get;
    assert (es + [e])[..|es|] == es;
    var cs, req := Commits(es), Request(es, e.c);
    assert Commits(es + [e]) == cs + [req] && (cs + [req])[..|cs|] == cs;
    assert req == s.conns[e.c].edit;
    assert forall f :: f != req.file ==> Replay(d, cs + [req], f) == Replay(d, cs, f);
  }

  lemma FilesFinish(d: Disk, es: seq<Event>, e: Event, s: State, names: iset<string>)
    requires Inv(d, es, s, names) && Enabled(s, e) && e.Finish?
    ensures Files(d, es + [e], Do(s, e), names)
  {
    hide Live, Bak, Tmp, Replay, Get;
    assert (es + [e])[..|es|] == es;
    assert s.holder == Some(e.c);
  }

  /** A disk step of the commit under way touches only its own file's three paths. */
  lemma OthersKept(d: Disk, es: seq<Event>, s: State, s': State, g: string, names: iset<string>)
    requires Files(d, es, s, names) && Busy(s, g) && Busy(s', g) && s.holder == s'.holder
    requires Apart(names) && g in names && Live(g) != ""
    requires forall p :: p !in {Live(g), Bak(g), Tmp(g)} ==> Get(s'.disk, p) == Get(s.disk, p)
    ensures forall f :: f in names && Live(f) != "" && !Busy(s', f) ==>
      Get(s'.disk, Live(f)) == Replay(d, Commits(es), f)
  {
    forall f | f in names && Live(f) != "" && !Busy(s', f)
      ensures Get(s'.disk, Live(f)) == Replay(d, Commits(es), f)
    {
      PathsCollide(g, f);
      hide Live, Bak, Tmp, Get, Replay;
      assert !Busy(s, f);
    }
  }

  lemma FilesDisk(d: Disk, es: seq<Event>, e: Event, s: State, names: iset<string>)
    requires Inv(d, es, s, names) && Enabled(s, e) && (e.Load? || e.Put? || e.BackUp? || e.Install?)
    ensures Files(d, es + [e], Do(s, e), names)
  {
    hide Live, Bak, Tmp, Locate, CommitText;
    assert (es + [e])[..|es|] == es;
    assert s.holder == Some(e.c);
    var s', conn := Do(s, e), s.conns[e.c];
    var g, cs := conn.edit.file, Commits(es);
    TmpNotLive(g);
    assert Busy(s, g) && Busy(s', g);
    OthersKept(d, es, s, s', g, names);
    MidStep(d, cs, e, s);
  }

  lemma MidLoad(c: nat, s: State, before: Option<string>, after: Option<string>)
    requires Enabled(s, Load(c)) && MidCommit(s.disk, s.conns[c], before, after)
    requires var e := s.conns[c].edit; Live(e.file) != "" && after == CommitFile(before, e.sentence, e.ops)
    ensures MidCommit(Do(s, Load(c)).disk, Do(s, Load(c)).conns[c], before, after)
  {
    hide Live, Bak, Tmp, Locate, CommitText;
    TmpNotLive(s.conns[c].edit.file);
    var e, content := s.conns[c].edit, if before.Some? then before.value else "";
    assert Get(s.disk, Live(e.file)) == before;
    if Locate(content, e.sentence).Missing? {
      assert Do(s, Load(c)).conns[c].phase == NoSuchSentence;
    } else {
      assert Do(s, Load(c)).conns[c].phase == Writing(before, CommitText(content, e.sentence, e.ops), 0);
    }
  }

  lemma MidWrite(e: Event, s: State, before: Option<string>, after: Option<string>)
    requires Enabled(s, e) && (e.Put? || e.BackUp? || e.Install?)
    requires MidCommit(s.disk, s.conns[e.c], before, after) && Live(s.conns[e.c].edit.file) != ""
    ensures MidCommit(Do(s, e).disk, Do(s, e).conns[e.c], before, after)
  {
    var conn, f := s.conns[e.c], s.conns[e.c].edit.file;
    TmpNotLive(f);
    hide Live, Bak, Tmp, Locate, CommitText;
    if e.Put? {
      assert Do(s, e).conns[e.c].phase == conn.phase.(done := conn.phase.done + e.amount);
    } else if e.BackUp? {
      assert Do(s, e).conns[e.c].phase == BackedUp(conn.phase.before, conn.phase.text);
      assert conn.phase.text[..conn.phase.done] == conn.phase.text;
    } else {
      assert Do(s, e).conns[e.c].phase == Installed(conn.phase.before, conn.phase.text);
    }
  }

  lemma MidStep(d: Disk, cs: seq<Edit>, e: Event, s: State)
    requires Enabled(s, e) && (e.Load? || e.Put? || e.BackUp? || e.Install?) && cs != []
    requires var conn := s.conns[e.c];
      && cs[|cs| - 1] == conn.edit && Live(conn.edit.file) != ""
      && MidCommit(s.disk, conn, Replay(d, cs[..|cs| - 1], conn.edit.file), Replay(d, cs, conn.edit.file))
    ensures var conn := Do(s, e).conns[e.c];
      && MidCommit(Do(s, e).disk, conn, Replay(d, cs[..|cs| - 1], conn.edit.file), Replay(d, cs, conn.edit.file))
  {
    var f := s.conns[e.c].edit.file;
    var before, after := Replay(d, cs[..|cs| - 1], f), Replay(d, cs, f);
    assert Do(s, e).conns[e.c].edit == s.conns[e.c].edit;
    hide Live, Bak, Tmp, CommitFile, MidCommit;
    assert after == CommitFile(before, s.conns[e.c].edit.sentence, s.conns[e.c].edit.ops);
    hide Replay;
    if e.Load? { MidLoad(e.c, s, before, after); } else { MidWrite(e, s, before, after); }
  }

  /** Every step keeps the invariant. */
  lemma StepKeeps(d: Disk, es: seq<Event>, e: Event, s: State, names: iset<string>)
    requires Inv(d, es, s, names) && Enabled(s, e) && (e.LockSentence? ==> e.file in names)
    ensures Inv(d, es + [e], Do(s, e), names)
  {
    BuffersStep(es, e, s, names);
    MutexStep(s, e);
    hide Buffers, Mutex, Files, Enabled, Do;
    if Buffering(e) { FilesBuffering(d, es, e, s, names); }
    else if e.TakeMutex? { FilesTake(d, es, e, s, names); }
    else if e.Finish? { FilesFinish(d, es, e, s, names); }
    else { FilesDisk(d, es, e, s, names); }
  }

  lemma {:induction false} RunKeeps(d: Disk, es: seq<Event>, names: iset<string>)
    requires Run(d, es) && Locks(es, names) && Apart(names)
    ensures Inv(d, es, End(d, es), names)
    decreases |es|
  {
    if es == [] {
      assert End(d, es) == State(d, [], None);
    } else {
      var k := |es| - 1;
      RunKeeps(d, es[..k], names);
      assert es[..k] + [es[k]] == es;
      StepKeeps(d, es[..k], es[k], End(d, es[..k]), names);
    }
  }

  /** Serialisability: whenever no commit holds the mutex, every file is its commits applied one after another in
      mutex order, each with exactly its own connection's writes; no commit is lost or computed from stale text. */
  lemma Serialisable(d: Disk, es: seq<Event>, f: string, names: iset<string>)
    requires Run(d, es) && Locks(es, names) && Apart(names) && f in names && Live(f) != ""
    requires End(d, es).holder.None?
    ensures Get(End(d, es).disk, Live(f)) == Replay(d, Commits(es), f)
  {
    hide Run, End, Commits, Replay, Live, Locks, Apart;
    RunKeeps(d, es, names);
    assert !Busy(End(d, es), f);
  }

  /** Crash safety: wherever a run stops, the content before the commit under way is still whole, under the live
      name or as the backup, and the live name never holds a partly written text. */
  lemma CrashSafe(d: Disk, es: seq<Event>, f: string, names: iset<string>)
    requires Run(d, es) && Locks(es, names) && Apart(names) && f in names && Live(f) != ""
    ensures var disk, cs := End(d, es).disk, Commits(es);
      || Get(disk, Live(f)) == Replay(d, cs, f)
      || (cs != [] && cs[|cs| - 1].file == f &&
          var before := Replay(d, cs[..|cs| - 1], f);
          || Get(disk, Live(f)) == before
          || (Get(disk, Live(f)) == None && Get(disk, Bak(f)) == before && Get(disk, Tmp(f)) == Replay(d, cs, f)))
    ensures var disk, cs := End(d, es).disk, Commits(es);
      cs != [] && cs[|cs| - 1].file == f && End(d, es).holder.Some? ==>
          var before := Replay(d, cs[..|cs| - 1], f);
          Get(disk, Live(f)) == before || before.None? || Get(disk, Bak(f)) == before
  {
    hide Run, End, Commits, Replay, Live, Bak, Tmp, Get, Locks, Apart;
    RunKeeps(d, es, names);
    var s := End(d, es);
    if !Busy(s, f) { assert Get(s.disk, Live(f)) == Replay(d, Commits(es), f); }
  }

  /** Once the backup rename is done, undo brings back the content the commit started from. */
  lemma UndoMidCommit(d: Disk, es: seq<Event>, c: nat, names: iset<string>)
    requires Run(d, es) && Locks(es, names) && Apart(names) && c < |End(d, es).conns|
    requires var p := End(d, es).conns[c].phase; (p.BackedUp? || p.Installed?) && p.before.Some?
    ensures var f, cs := End(d, es).conns[c].edit.file, Commits(es);
      && cs != [] && cs[|cs| - 1].file == f
      && Exec(End(d, es).disk, Undo(f)).1
      && Get(Exec(End(d, es).disk, Undo(f)).0, Live(f)) == Replay(d, cs[..|cs| - 1], f)
  {
    hide Run, End, Commits, Replay, Locks, Apart;
    RunKeeps(d, es, names);
    var s := End(d, es);
    assert s.holder == Some(c);
    TmpNotLive(s.conns[c].edit.file);
    hide Live, Bak, Tmp;
  }

  /** The steps of a commit taken without interruption. */
  function Loaded(s: State, c: nat): State
    requires c < |s.conns| && s.conns[c].phase.Idle? && s.holder.None? && Live(s.conns[c].edit.file) != ""
  {
    Do(Do(s, TakeMutex(c)), Load(c))
  }

  function Renamed(s: State, c: nat): State
    requires c < |s.conns| && s.conns[c].phase.Writing? && s.conns[c].phase.done == 0
  {
    var written := Do(s, Put(c, |s.conns[c].phase.text|));
    Do(Do(written, BackUp(c)), Install(c))
  }

  lemma LoadedFacts(s: State, c: nat)
    requires c < |s.conns| && s.conns[c].phase.Idle? && s.holder.None? && Live(s.conns[c].edit.file) != ""
    ensures var s1, e := Loaded(s, c), s.conns[c].edit;
      var content := if Live(e.file) in s.disk then s.disk[Live(e.file)] else "";
      && c < |s1.conns| && s1.conns[c].edit == e
      && if Locate(content, e.sentence).Missing?
         then s1.conns[c].phase.NoSuchSentence? && Enabled(s1, Finish(c)) && Do(s1, Finish(c)).disk == s.disk
         else s1.disk == s.disk[Tmp(e.file) := ""]
              && s1.conns[c].phase == Writing(Get(s.disk, Live(e.file)), CommitText(content, e.sentence, e.ops), 0)
  {
    hide Live, Tmp, Locate, CommitText;
  }

  lemma RenamedFacts(s: State, c: nat)
    requires c < |s.conns| && s.conns[c].phase.Writing? && s.conns[c].phase.done == 0
    ensures var s3, f, p := Renamed(s, c), s.conns[c].edit.file, s.conns[c].phase;
      var written := s.disk[Tmp(f) := p.text];
      var backed := if p.before.Some? then Rename(written, Live(f), Bak(f)).0 else written;
      && Enabled(s3, Finish(c)) && Do(s3, Finish(c)).disk == Rename(backed, Tmp(f), Live(f)).0
  {
    hide Live, Tmp, Bak, Rename;
    var t := s.conns[c].phase.text;
    assert t[..|t|] == t;
  }

  /** Without interruption they are commit_changes. */
  lemma Uninterrupted(s: State, c: nat)
    requires c < |s.conns| && s.conns[c].phase.Idle? && s.holder.None? && Live(s.conns[c].edit.file) != ""
    ensures var s1, e := Loaded(s, c), s.conns[c].edit;
      var s2 := if s1.conns[c].phase.NoSuchSentence? then s1 else Renamed(s1, c);
      && Enabled(s2, Finish(c))
      && Do(s2, Finish(c)).disk == CommitDisk(s.disk, e.file, e.sentence, e.ops)
  {
    hide Loaded, Renamed, Live, Bak, Tmp, Locate, CommitText, Rename, Do, Enabled;
    LoadedFacts(s, c);
    var s1 := Loaded(s, c);
    if s1.conns[c].phase.Writing? {
      RenamedFacts(s1, c);
      var f, t := s.conns[c].edit.file, s1.conns[c].phase.text;
      assert s.disk[Tmp(f) := ""][Tmp(f) := t] == s.disk[Tmp(f) := t];
    }
  }

  // ---- That the names must be apart ----

  lemma Extend(d: Disk, es: seq<Event>, e: Event)
    requires Run(d, es) && Enabled(End(d, es), e)
    ensures Run(d, es + [e]) && End(d, es + [e]) == Do(End(d, es), e)
  {
    hide Enabled, Do;
    assert (es + [e])[..|es|] == es;
  }

  /** One connection locks f. */
  lemma LockSteps(d: Disk, f: string)
    ensures var es := [Open, LockSentence(0, f, 0)];
      Run(d, es) && End(d, es) == State(d, [Conn(Edit(f, 0, []), Idle)], None)
  {
    hide Live;
    assert Run(d, []) && End(d, []) == State(d, [], None);
    Extend(d, [], Open);
    Extend(d, [Open], LockSentence(0, f, 0));
    assert [] + [Open] == [Open] && [Open] + [LockSentence(0, f, 0)] == [Open, LockSentence(0, f, 0)];
  }

  lemma LoadSteps(d: Disk, es: seq<Event>, s: State)
    requires Run(d, es) && s == End(d, es)
    requires |s.conns| > 0 && s.conns[0].phase.Idle? && s.holder.None? && Live(s.conns[0].edit.file) != ""
    ensures var es' := es + [TakeMutex(0)] + [Load(0)]; Run(d, es') && End(d, es') == Loaded(s, 0)
  {
    hide Live, Tmp, Locate, CommitText, Run, End;
    Extend(d, es, TakeMutex(0));
    Extend(d, es + [TakeMutex(0)], Load(0));
  }

  lemma RenameSteps(d: Disk, es: seq<Event>, s: State)
    requires Run(d, es) && s == End(d, es)
    requires |s.conns| > 0 && s.conns[0].phase.Writing? && s.conns[0].phase.done == 0
    ensures var es' := es + [Put(0, |s.conns[0].phase.text|)] + [BackUp(0)] + [Install(0)];
      Run(d, es') && End(d, es') == Renamed(s, 0)
  {
    hide Live, Tmp, Bak, Rename, Run, End;
    var put := es + [Put(0, |s.conns[0].phase.text|)];
    Extend(d, es, Put(0, |s.conns[0].phase.text|));
    Extend(d, put, BackUp(0));
    Extend(d, put + [BackUp(0)], Install(0));
  }

  /** A run in which one connection locks f and commits without a write. */
  lemma CommitAlone(d: Disk, f: string) returns (es: seq<Event>)
    requires Live(f) != ""
    ensures Run(d, es) && End(d, es).holder.None? && End(d, es).disk == CommitDisk(d, f, 0, [])
    ensures forall i :: 0 <= i < |es| && es[i].LockSentence? ==> es[i].file == f
  {
    hide Live, Bak, Tmp, Rename, Locate, CommitText, CommitDisk, Run, End, Loaded, Renamed, Enabled, Do;
    LockSteps(d, f);
    var lock := [Open, LockSentence(0, f, 0)];
    var s := End(d, lock);
    LoadSteps(d, lock, s);
    LoadedFacts(s, 0);
    FirstSentence(if Live(f) in d then d[Live(f)] else "", 0);
    var loaded, s1 := lock + [TakeMutex(0)] + [Load(0)], Loaded(s, 0);
    RenameSteps(d, loaded, s1);
    Uninterrupted(s, 0);
    var renamed := loaded + [Put(0, |s1.conns[0].phase.text|)] + [BackUp(0)] + [Install(0)];
    Extend(d, renamed, Finish(0));
    es := renamed + [Finish(0)];
    FinishFrees(End(d, renamed));
  }

  lemma FinishFrees(s: State)
    requires Enabled(s, Finish(0))
    ensures Do(s, Finish(0)).holder.None?
  {
  }

  lemma {:induction false} NeverLocked(es: seq<Event>, c: nat, g: string)
    requires g != "" && forall i :: 0 <= i < |es| && es[i].LockSentence? ==> es[i].file != g
    ensures Request(es, c).file != g
  {
    if es != [] { NeverLocked(es[..|es| - 1], c, g); }
  }

  lemma {:induction false} NeverCommitted(d: Disk, es: seq<Event>, g: string)
    requires g != "" && forall i :: 0 <= i < |es| && es[i].LockSentence? ==> es[i].file != g
    ensures Replay(d, Commits(es), g) == Get(d, Live(g))
  {
    hide Request, Get, Live, CommitFile;
    if es != [] {
      var before, e := es[..|es| - 1], es[|es| - 1];
      NeverCommitted(d, before, g);
      if e.TakeMutex? {
        NeverLocked(before, e.c, g);
        var cs := Commits(before);
        assert (cs + [Request(before, e.c)])[..|cs|] == cs;
      }
    }
  }

  /** Once no commit holds the mutex, f is its commits applied one after another. */
  ghost predicate Settles(d: Disk, es: seq<Event>, f: string) {
    Run(d, es) && End(d, es).holder.None? ==> Get(End(d, es).disk, Live(f)) == Replay(d, Commits(es), f)
  }

  /** That the names in use are apart is exactly what serialisability asks of them. */
  lemma SerialisableExactly(names: iset<string>)
    requires "" in names
    ensures (forall d, es, f :: Locks(es, names) && f in names && Live(f) != "" ==> Settles(d, es, f)) <==> Apart(names)
  {
    hide Run, End, Commits, Replay, Live, Get, CommitDisk;
    if f, g :| f in names && g in names && Live(f) != "" && Live(g) != "" && (g == f + ".bak" || g == f + ".tmp") {
      var d := map[Live(f) := "x", Live(g) := "y"];
      var es := CommitAlone(d, f);
      NeverCommitted(d, es, g);
      SuffixOverwritten(f, g);
      assert !Settles(d, es, g) && Locks(es, names);
    } else {
      forall d, es, f | Locks(es, names) && f in names && Live(f) != "" ensures Settles(d, es, f) {
        if Run(d, es) && End(d, es).holder.None? { Serialisable(d, es, f, names); }
      }
    }
  }

  // ---- The session branches of one connection's command loop ----

  class Connection {
    var lockedFile: string
    var lockedSentence: int
    var writes: seq<Write>

    constructor ()
      ensures Asked() == NO_EDIT
    {
      lockedFile, lockedSentence, writes := "", -1, [];
    }

    function Asked(): Edit
      reads this
    {
      Edit(lockedFile, lockedSentence, writes)
    }

    method Lock(file: string, sentence: int)
      modifies this
      ensures Asked() == NextRequest(old(Asked()), LockSentence(0, file, sentence), 0)
    {
      lockedFile, lockedSentence := file, sentence;
    }

    method Buffer(index: int, content: string)
      modifies this
      ensures Asked() == NextRequest(old(Asked()), WriteData(0, index, content), 0)
    {
      writes := [Write(index, content)] + writes;
    }

    method CommitWrite(store: Store)
      modifies this, store
      ensures var e := old(Asked()); store.files == CommitDisk(old(store.files), e.file, e.sentence, e.ops)
      ensures Asked() == NextRequest(old(Asked()), Finish(0), 0)
    {
      store.CommitChanges(lockedFile, lockedSentence, writes);
      while writes != []
        decreases |writes|
        invariant store.files == CommitDisk(old(store.files), old(lockedFile), old(lockedSentence), old(writes))
      {
        writes := writes[1..];
      }
      lockedFile, lockedSentence := "", -1;
    }
  }
}
