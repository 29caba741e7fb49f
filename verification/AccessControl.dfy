/** Who may do what to a file, over whole runs of the name server. */
module AccessControl {
  import opened Text
  import opened Recency
  import opened Metadata

  /** The user's entry in the access list of the file called name. */
  function Perm(st: State, name: string, user: string): Option<char> {
    var f := Find(st.files, name);
    if f.Some? then Grant(f.value.acl, user) else None
  }

  predicate Owns(st: State, name: string, user: string) {
    var f := Find(st.files, name);
    f.Some? && f.value.owner == user
  }

  predicate Makes(st: State, name: string) { Find(st.files, name).None? && st.servers != [] }

  /** What a step, taken in state st, makes of the permission prev of user on name: only the owner's own ADDACCESS,
      REMACCESS and APPROVE that name both, and the creation and deletion of the file, count. */
  function NextPerm(st: State, s: Step, name: string, user: string, prev: Option<char>): Option<char> {
    match s
    case AddAccess(n, target, perm, actor) =>
      if && n == name && target == user && Owns(st, name, actor)
         && (exists u :: u in st.users && u.name == user) && (perm == 'R' || perm == 'W')
      then Some(perm) else prev
    case RemAccess(n, target, actor) =>
      if n == name && target == user && Owns(st, name, actor) then None else prev
    case Approve(n, target, actor) =>
      if n == name && target == user && Owns(st, name, actor) && prev.None? then Some('R') else prev
    case Create(n, actor) =>
      if n == name && Makes(st, name) then (if user == actor then Some('W') else None) else prev
    case CreateFolder(n, actor) =>
      if n == name && Makes(st, name) then (if user == actor then Some('W') else None) else prev
    case Delete(n, actor, acked) => if n == name && Deletes(st, n, actor, acked) then None else prev
    case _ => prev
  }

  /** The fold of those steps over a run. */
  function PermHistory(st: State, run: seq<Step>, name: string, user: string): Option<char> {
    if run == [] then Perm(st, name, user)
    else
      var k := |run| - 1;
      NextPerm(After(st, run[..k]), run[k], name, user, PermHistory(st, run[..k], name, user))
  }

  lemma PermAdded(st: State, f: FileRec, name: string, user: string)
    requires Find(st.files, f.name).None?
    ensures Perm(st.(files := [f] + st.files), name, user)
      == if name == f.name then Grant(f.acl, user) else Perm(st, name, user)
    ensures name != f.name ==> Find([f] + st.files, name) == Find(st.files, name)
  {
    assert ([f] + st.files)[1..] == st.files;
  }

  lemma {:induction false} FindAltered(before: seq<FileRec>, after: seq<FileRec>, name: string)
    requires |before| == |after| && forall i :: 0 <= i < |before| ==> before[i].name == after[i].name
    ensures Find(before, name).None? <==> Find(after, name).None?
    ensures Find(before, name).Some? ==>
      exists i :: 0 <= i < |before| && before[i].name == name && Find(before, name) == Some(before[i]) &&
        Find(after, name) == Some(after[i])
  {
    if before != [] && before[0].name != name { FindAltered(before[1..], after[1..], name); }
  }

  lemma AlterFind(st: State, s: Step, name: string)
    requires OnOneFile(s)
    ensures Find(st.files, name).None? ==> Find(Alter(st, s), name).None?
    ensures Find(st.files, name).Some? ==>
      (Find(Alter(st, s), name)
        == Some(if name == s.name then Change(st, Find(st.files, name).value, s) else Find(st.files, name).value))
  {
    hide Find;
    forall i | 0 <= i < |st.files| ensures st.files[i].name == Alter(st, s)[i].name {
      ChangeName(st, st.files[i], s);
    }
    hide Change;
    FindAltered(st.files, Alter(st, s), name);
  }

  lemma ChangeName(st: State, f: FileRec, s: Step)
    ensures Change(st, f, s).name == f.name && Change(st, f, s).owner == f.owner
  {
    hide SetAccess, DropAccess, CheckPermission, KnownUser, DropRequest, Grant;
  }

  lemma PermAltered(st: State, s: Step, name: string, user: string)
    requires Inv(st) && OnOneFile(s) && Find(st.files, s.name).Some?
    ensures Perm(Do(st, s), name, user) == NextPerm(st, s, name, user, Perm(st, name, user))
  {
    hide Find, Touch, SetAccess, DropAccess, CheckPermission, DropRequest, Grant, Alter;
    AlterFind(st, s, name);
    if name == s.name {
      var f := Find(st.files, name).value;
      assert FileOk(f);
      if s.AddAccess? { SetAccessFacts(f.acl, s.target, s.perm); }
      if s.RemAccess? { DropAccessFacts(f.acl, s.target); }
      if s.Approve? { PrependGrant(Access(s.target, 'R'), f.acl, user); }
    }
  }

  lemma PrependGrant(a: Access, acl: seq<Access>, user: string)
    ensures Grant([a] + acl, user) == if a.user == user then Some(a.perm) else Grant(acl, user)
  {
    assert ([a] + acl)[1..] == acl;
  }

  lemma {:induction false} PermRegistered(st: State, server: Server, names: seq<string>, name: string, user: string)
    ensures Perm(RegisterNames(st, server, names), name, user) == Perm(st, name, user)
    decreases |names|
  {
    if names != [] {
      var st' := RegisterName(st, server, names[0]);
      assert Perm(st', name, user) == Perm(st, name, user) by {
        if Find(st.files, names[0]).None? {
          PermAdded(st, FileRec(names[0], "ss_owner", false, server, [], [], ""), name, user);
        }
      }
      PermRegistered(st', server, names[1..], name, user);
    }
  }

  lemma {:induction false} PermDropped(files: seq<FileRec>, dropped: string, name: string)
    requires NamesDistinct(files)
    ensures Find(DropFile(files, dropped), name) == if name == dropped then None else Find(files, name)
  {
    DropFileFacts(files, dropped);
    FindFacts(files, name);
    FindFacts(DropFile(files, dropped), name);
    hide Find, DropFile;
  }

  /** One step changes exactly what NextPerm says: no step changes another user's permission, or one on another file. */
  lemma PermStep(st: State, s: Step, name: string, user: string)
    requires Inv(st)
    ensures Perm(Do(st, s), name, user) == NextPerm(st, s, name, user, Perm(st, name, user))
  {
    hide Inv, Find, Touch, Drop, DropFile, Alter, RegisterNames, Grant, SetIp, KnownUser, Change;
    match s
    case RegisterUser(_, _) =>
    case RegisterServer(server, names) =>
      PermRegistered(st.(servers := [server] + st.servers), server, names, name, user);
    case Create(n, actor) =>
      if Makes(st, n) { CreatedPerm(st, NewFile(n, actor, false, st.servers[0]), name, user); }
    case CreateFolder(n, actor) =>
      if Makes(st, n) { CreatedPerm(st, NewFile(n, actor, true, st.servers[0]), name, user); }
    case Delete(n, actor, acked) =>
      assert NamesDistinct(st.files) by { assert Inv(st); NamesOf(st); }
      PermDropped(st.files, n, name);
    case _ =>
      if Find(st.files, s.name).Some? { PermAltered(st, s, name, user); }
      else { NothingFound(st, s, name, user); }
  }

  lemma NamesOf(st: State)
    requires Inv(st)
    ensures NamesDistinct(st.files)
  {
  }

  lemma CreatedPerm(st: State, f: FileRec, name: string, user: string)
    requires Find(st.files, f.name).None? && f.acl == [Access(f.owner, 'W')]
    ensures Perm(st.(files := [f] + st.files), name, user)
      == if name == f.name then (if user == f.owner then Some('W') else None) else Perm(st, name, user)
  {
    hide Find;
    PermAdded(st, f, name, user);
    assert Grant(f.acl[1..], user).None?;
  }

  lemma NothingFound(st: State, s: Step, name: string, user: string)
    requires OnOneFile(s) && Find(st.files, s.name).None?
    ensures Perm(Do(st, s), name, user) == Perm(st, name, user) == NextPerm(st, s, name, user, Perm(st, name, user))
  {
    hide Find, KnownUser;
  }

  lemma {:induction false} PermOverRuns(st: State, run: seq<Step>, name: string, user: string)
    requires Inv(st)
    ensures Perm(After(st, run), name, user) == PermHistory(st, run, name, user)
  {
    hide Inv, Do, Perm, NextPerm;
    if run != [] {
      var r := run[..|run| - 1];
      PermOverRuns(st, r, name, user);
      RunKeeps(st, r);
      PermStep(After(st, r), run[|run| - 1], name, user);
    }
  }

  /** What a user who is not the owner may do is decided by the owner's own steps since the file was made. */
  lemma AccessOverRuns(st: State, run: seq<Step>, name: string, user: string, perm: char)
    requires Inv(st) && Find(After(st, run).files, name).Some?
    ensures var f, p := Find(After(st, run).files, name).value, PermHistory(st, run, name, user);
      CheckPermission(f, user, perm) <==> f.owner == user || p == Some('W') || p == Some(perm)
  {
    PermOverRuns(st, run, name, user);
    RunKeeps(st, run);
    var f := Find(After(st, run).files, name).value;
    assert FileOk(f);
    hide After, Find, PermHistory, Inv;
    GrantFacts(f.acl, user);
  }

  /** Removal takes every right from a target who is not the owner; approval gives at least reading and keeps W. */
  lemma RemovalAndApproval(st: State, name: string, target: string, actor: string, perm: char)
    requires Inv(st) && Owns(st, name, actor) && target != actor
    ensures var after := Do(st, RemAccess(name, target, actor));
      Find(after.files, name).Some? && !CheckPermission(Find(after.files, name).value, target, perm)
    ensures var after := Do(st, Approve(name, target, actor));
      && Find(after.files, name).Some?
      && (CheckPermission(Find(st.files, name).value, target, perm) ==>
        CheckPermission(Find(after.files, name).value, target, perm))
      && (Perm(st, name, target).None? ==> CheckPermission(Find(after.files, name).value, target, 'R'))
      && target !in Find(after.files, name).value.pending
  {
    hide Find, Touch, Alter, Grant, DropAccess, DropRequest;
    var f := Find(st.files, name).value;
    assert FileOk(f);
    AlterFind(st, RemAccess(name, target, actor), name);
    DropAccessFacts(f.acl, target);
    GrantFacts(f.acl, target);
    GrantFacts(DropAccess(f.acl, target), target);
    AlterFind(st, Approve(name, target, actor), name);
    DropRequestFacts(f.pending, target);
    DropFacts(f.pending, target);
    if Grant(f.acl, target).None? { assert ([Access(target, 'R')] + f.acl)[0] in [Access(target, 'R')] + f.acl; }
  }

  // ---- Access requests ----

  predicate Waits(st: State, name: string, user: string) {
    var f := Find(st.files, name);
    f.Some? && user in f.value.pending
  }

  /** Whether user waits for name after a step taken in st: asking without the right to read starts the wait, the
      owner's answer to that user or the deletion of the file ends it, and nothing else touches it. */
  function NextWaits(st: State, s: Step, name: string, user: string, prev: bool): bool {
    match s
    case RequestAccess(n, actor) =>
      var f := Find(st.files, name);
      prev || (n == name && actor == user && f.Some? && !CheckPermission(f.value, user, 'R'))
    case Approve(n, target, actor) => prev && !(n == name && target == user && Owns(st, name, actor))
    case Reject(n, target, actor) => prev && !(n == name && target == user && Owns(st, name, actor))
    case Delete(n, actor, acked) => prev && !(n == name && Deletes(st, n, actor, acked))
    case _ => prev
  }

  function WaitHistory(st: State, run: seq<Step>, name: string, user: string): bool {
    if run == [] then Waits(st, name, user)
    else
      var k := |run| - 1;
      NextWaits(After(st, run[..k]), run[k], name, user, WaitHistory(st, run[..k], name, user))
  }

  lemma WaitsAdded(st: State, f: FileRec, name: string, user: string)
    requires Find(st.files, f.name).None? && f.pending == []
    ensures Waits(st.(files := [f] + st.files), name, user) <==> Waits(st, name, user)
  {
    assert ([f] + st.files)[1..] == st.files;
  }

  lemma {:induction false} WaitsRegistered(st: State, server: Server, names: seq<string>, name: string, user: string)
    ensures Waits(RegisterNames(st, server, names), name, user) <==> Waits(st, name, user)
    decreases |names|
  {
    if names != [] {
      var st' := RegisterName(st, server, names[0]);
      assert Waits(st', name, user) <==> Waits(st, name, user) by {
        if Find(st.files, names[0]).None? {
          WaitsAdded(st, FileRec(names[0], "ss_owner", false, server, [], [], ""), name, user);
        }
      }
      WaitsRegistered(st', server, names[1..], name, user);
    }
  }

  lemma RequestDropped(pending: seq<string>, target: string, user: string)
    requires Distinct(pending)
    ensures user in DropRequest(pending, target) <==> user in pending && user != target
  {
    DropRequestFacts(pending, target);
    DropFacts(pending, target);
  }

  lemma WaitsAltered(st: State, s: Step, name: string, user: string)
    requires Inv(st) && OnOneFile(s) && Find(st.files, s.name).Some?
    ensures Waits(Do(st, s), name, user) <==> NextWaits(st, s, name, user, Waits(st, name, user))
  {
    hide Find, Touch, SetAccess, DropAccess, CheckPermission, KnownUser, DropRequest, Grant, Alter;
    AlterFind(st, s, name);
    if name == s.name {
      var f := Find(st.files, name).value;
      assert FileOk(f);
      if s.Approve? || s.Reject? { RequestDropped(f.pending, s.target, user); }
    }
  }

  /** One step changes who waits exactly as NextWaits says. */
  lemma WaitStep(st: State, s: Step, name: string, user: string)
    requires Inv(st)
    ensures Waits(Do(st, s), name, user) <==> NextWaits(st, s, name, user, Waits(st, name, user))
  {
    hide Inv, Find, Touch, Drop, DropFile, Alter, RegisterNames, SetIp, KnownUser, Change;
    match s
    case RegisterUser(_, _) =>
    case RegisterServer(server, names) =>
      WaitsRegistered(st.(servers := [server] + st.servers), server, names, name, user);
    case Create(n, actor) =>
      if Makes(st, n) { WaitsAdded(st, NewFile(n, actor, false, st.servers[0]), name, user); }
    case CreateFolder(n, actor) =>
      if Makes(st, n) { WaitsAdded(st, NewFile(n, actor, true, st.servers[0]), name, user); }
    case Delete(n, actor, acked) =>
      NamesOf(st);
      PermDropped(st.files, n, name);
    case _ =>
      if Find(st.files, s.name).Some? { WaitsAltered(st, s, name, user); }
  }

  /** Over every run the waiting users are those whose asking was not answered, and whose file was not deleted,
      since. */
  lemma {:induction false} RequestsOverRuns(st: State, run: seq<Step>, name: string, user: string)
    requires Inv(st)
    ensures Waits(After(st, run), name, user) <==> WaitHistory(st, run, name, user)
  {
    hide Inv, Do, Waits, NextWaits;
    if run != [] {
      var r := run[..|run| - 1];
      RequestsOverRuns(st, r, name, user);
      RunKeeps(st, r);
      WaitStep(After(st, r), run[|run| - 1], name, user);
    }
  }

  // ---- The delete of the source ----

  /** find_file as the source has it: a cached name is found whether or not the file still exists. */
  predicate Found(st: State, name: string) { name in st.cached || Find(st.files, name).Some? }

  /** Deleting as written keeps the invariant exactly when it deletes nothing: the name it removed is still found. */
  lemma DeleteAsWrittenBreaks(st: State, name: string, actor: string, acked: bool)
    requires Inv(st)
    ensures Inv(DeleteAsWritten(st, name, actor, acked)) <==> !Deletes(st, name, actor, acked)
    ensures var after := DeleteAsWritten(st, name, actor, acked);
      Deletes(st, name, actor, acked) ==> Found(after, name) && Find(after.files, name).None?
  {
    hide Find, Touch, DropFile, Do;
    if Deletes(st, name, actor, acked) {
      TouchFacts(st.cached, name);
      PermDropped(st.files, name, name);
    } else {
      StepKeeps(st, Delete(name, actor, acked));
    }
  }

  /** Successful lookups of the names, one after another. */
  function SeenAll(st: State, names: seq<string>): State {
    if names == [] then st else Seen(SeenAll(st, names[..|names| - 1]), names[|names| - 1])
  }

  lemma {:induction false} SeenAllCached(st: State, lookups: seq<string>, later: seq<string>)
    requires st.cached == TouchAll(lookups, CACHE_SIZE)
    ensures SeenAll(st, later).cached == TouchAll(lookups + later, CACHE_SIZE) && SeenAll(st, later).files == st.files
  {
    hide Touch;
    if later == [] {
      assert lookups + later == lookups;
    } else {
      var k := |later| - 1;
      SeenAllCached(st, lookups, later[..k]);
      assert (lookups + later)[..|lookups + later| - 1] == lookups + later[..k];
    }
  }

  /** After it the name stays found, and so cannot be created again, exactly until 16 other names have been looked
      up. */
  lemma DeletedNameLingers(st: State, name: string, actor: string, later: seq<string>)
    requires Inv(st) && Deletes(st, name, actor, true) && name !in later
    ensures Found(SeenAll(DeleteAsWritten(st, name, actor, true), later), name) <==> |Names(later)| < 16
  {
    hide Find, Touch, DropFile, TouchAll, Names;
    var lookups := TraceOf(st.cached, CACHE_SIZE);
    PermDropped(st.files, name, name);
    var gone := DeleteAsWritten(st, name, actor, true);
    assert gone.cached == TouchAll(lookups + [name], CACHE_SIZE) by { TouchAllSnoc(lookups, name); }
    SeenAllCached(gone, lookups + [name], later);
    StaysUntilEvicted(lookups, name, later, CACHE_SIZE);
  }

  lemma TouchAllSnoc(trace: seq<string>, k: string)
    ensures TouchAll(trace + [k], CACHE_SIZE) == Touch(TouchAll(trace, CACHE_SIZE), k, CACHE_SIZE)
  {
    assert (trace + [k])[..|trace|] == trace;
  }
}
