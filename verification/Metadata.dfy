/** The name server's state as a value, and what each request does to it while holding the data mutex. */
module Metadata {
  import opened Text
  import opened Recency

  datatype Access = Access(user: string, perm: char)

  datatype Server = Server(ip: string, port: int)

  datatype User = User(name: string, ip: string)

  datatype FileRec = FileRec(
    name: string,
    owner: string,
    isDirectory: bool,
    server: Server,
    acl: seq<Access>,
    pending: seq<string>,
    note: string)

  /** The lists in list order, head first; cached holds the names in the LRU cache, most recent first. */
  datatype State = State(files: seq<FileRec>, servers: seq<Server>, users: seq<User>, cached: seq<string>)

  datatype Step =
    | RegisterUser(name: string, ip: string)
    | RegisterServer(server: Server, names: seq<string>)
    | Lookup(name: string)
    | Create(name: string, actor: string)
    | CreateFolder(name: string, actor: string)
    | Delete(name: string, actor: string, acked: bool)
    | AddAccess(name: string, target: string, perm: char, actor: string)
    | RemAccess(name: string, target: string, actor: string)
    | RequestAccess(name: string, actor: string)
    | Approve(name: string, target: string, actor: string)
    | Reject(name: string, target: string, actor: string)
    | Annotate(name: string, note: string, actor: string)

  // ---- Access lists ----

  function Grant(acl: seq<Access>, user: string): Option<char> {
    if acl == [] then None
    else if acl[0].user == user then Some(acl[0].perm)
    else Grant(acl[1..], user)
  }

  /** Changes the first entry of the user, or puts a new one at the head. */
  function SetAccess(acl: seq<Access>, user: string, perm: char): seq<Access> {
    if Grant(acl, user).None? then [Access(user, perm)] + acl else ChangeAccess(acl, user, perm)
  }

  function ChangeAccess(acl: seq<Access>, user: string, perm: char): seq<Access> {
    if acl == [] then []
    else if acl[0].user == user then [Access(user, perm)] + acl[1..]
    else [acl[0]] + ChangeAccess(acl[1..], user, perm)
  }

  /** Removes the first entry of the user. */
  function DropAccess(acl: seq<Access>, user: string): seq<Access> {
    if acl == [] then []
    else if acl[0].user == user then acl[1..]
    else [acl[0]] + DropAccess(acl[1..], user)
  }

  function DropRequest(pending: seq<string>, user: string): seq<string> {
    if pending == [] then []
    else if pending[0] == user then pending[1..]
    else [pending[0]] + DropRequest(pending[1..], user)
  }

  predicate CheckPermission(f: FileRec, user: string, perm: char) {
    f.owner == user || exists a :: a in f.acl && a.user == user && (a.perm == 'W' || a.perm == perm)
  }

  // ---- Steps ----

  function Find(files: seq<FileRec>, name: string): (r: Option<FileRec>)
    ensures r.Some? ==> r.value in files && r.value.name == name
  {
    if files == [] then None
    else if files[0].name == name then Some(files[0])
    else Find(files[1..], name)
  }

  function DropFile(files: seq<FileRec>, name: string): seq<FileRec> {
    if files == [] then []
    else if files[0].name == name then files[1..]
    else [files[0]] + DropFile(files[1..], name)
  }

  /** find_file succeeded: the name is the most recently used. */
  function Seen(st: State, name: string): State { st.(cached := Touch(st.cached, name, CACHE_SIZE)) }

  predicate KnownUser(users: seq<User>, name: string) { exists u :: u in users && u.name == name }

  function SetIp(users: seq<User>, name: string, ip: string): seq<User> {
    if users == [] then []
    else if users[0].name == name then [User(name, ip)] + users[1..]
    else [users[0]] + SetIp(users[1..], name, ip)
  }

  function NewFile(name: string, actor: string, isDirectory: bool, server: Server): FileRec {
    FileRec(name, actor, isDirectory, server, [Access(actor, 'W')], [], "")
  }

  function RegisterName(st: State, server: Server, name: string): State {
    if Find(st.files, name).Some? then Seen(st, name)
    else st.(files := [FileRec(name, "ss_owner", false, server, [], [], "")] + st.files)
  }

  function RegisterNames(st: State, server: Server, names: seq<string>): State
    decreases |names|
  {
    if names == [] then st else RegisterNames(RegisterName(st, server, names[0]), server, names[1..])
  }

  function Clip(note: string): string { if |note| > 255 then note[..255] else note }

  /** What a request does to the file it found. */
  function Change(st: State, f: FileRec, s: Step): FileRec {
    match s
    case AddAccess(_, target, perm, actor) =>
      if f.owner == actor && KnownUser(st.users, target) && (perm == 'R' || perm == 'W')
      then f.(acl := SetAccess(f.acl, target, perm)) else f
    case RemAccess(_, target, actor) =>
      if f.owner == actor then f.(acl := DropAccess(f.acl, target)) else f
    case RequestAccess(_, actor) =>
      if CheckPermission(f, actor, 'R') || actor in f.pending then f else f.(pending := [actor] + f.pending)
    case Approve(_, target, actor) =>
      if f.owner == actor
      then f.(acl := if Grant(f.acl, target).None? then [Access(target, 'R')] + f.acl else f.acl,
              pending := DropRequest(f.pending, target))
      else f
    case Reject(_, target, actor) =>
      if f.owner == actor then f.(pending := DropRequest(f.pending, target)) else f
    case Annotate(_, note, actor) =>
      if CheckPermission(f, actor, 'W') then f.(note := Clip(note)) else f
    case _ => f
  }

  predicate OnOneFile(s: Step) {
    s.AddAccess? || s.RemAccess? || s.RequestAccess? || s.Approve? || s.Reject? || s.Annotate? || s.Lookup?
  }

  /** The file list with that change made to the file the request names. */
  function Alter(st: State, s: Step): (r: seq<FileRec>)
    requires OnOneFile(s)
    ensures |r| == |st.files|
    ensures forall i :: 0 <= i < |r| ==>
      r[i] == if st.files[i].name == s.name then Change(st, st.files[i], s) else st.files[i]
  {
    seq(|st.files|, i requires 0 <= i < |st.files| =>
      if st.files[i].name == s.name then Change(st, st.files[i], s) else st.files[i])
  }

  /** Delete is the repaired one: it also drops the cache entry. */
  function Do(st: State, s: Step): State {
    match s
    case RegisterUser(name, ip) =>
      if KnownUser(st.users, name) then st.(users := SetIp(st.users, name, ip))
      else st.(users := [User(name, ip)] + st.users)
    case RegisterServer(server, names) =>
      if server in st.servers then st
      else RegisterNames(st.(servers := [server] + st.servers), server, names)
    case Create(name, actor) =>
      if Find(st.files, name).Some? then Seen(st, name)
      else if st.servers == [] then st
      else st.(files := [NewFile(name, actor, false, st.servers[0])] + st.files)
    case CreateFolder(name, actor) =>
      if Find(st.files, name).Some? then Seen(st, name)
      else if st.servers == [] then st
      else st.(files := [NewFile(name, actor, true, st.servers[0])] + st.files)
    case Delete(name, actor, acked) =>
      var f := Find(st.files, name);
      if f.None? then st
      else if f.value.owner != actor || !acked then Seen(st, name)
      else st.(files := DropFile(st.files, name), cached := Drop(Touch(st.cached, name, CACHE_SIZE), name))
    case _ =>
      if Find(st.files, s.name).None? then st
      else Seen(st, s.name).(files := Alter(st, s))
  }

  // ---- Replies ----

  datatype Reply =
    | Done
    | NotFound       // no such file
    | Denied         // not the owner, or not the right to write
    | UserUnknown    // the target never registered
    | BadInput       // a permission other than R and W
    | AlreadyExists
    | NoServer
    | Crash          // saving a folder that has no storage server dereferences a null pointer
    | ServerFailed
    | HasAccess      // asked for access one already has
    | AlreadyAsked
    | NoEntry        // nothing to remove

  /** The answer to a request about the file f. */
  function ReplyFor(st: State, f: FileRec, s: Step): Reply {
    match s
    case AddAccess(_, target, perm, actor) =>
      if f.owner != actor then Denied
      else if !KnownUser(st.users, target) then UserUnknown
      else if perm != 'R' && perm != 'W' then BadInput
      else Done
    case RemAccess(_, target, actor) =>
      if f.owner != actor then Denied else if Grant(f.acl, target).None? then NoEntry else Done
    case RequestAccess(_, actor) =>
      if CheckPermission(f, actor, 'R') then HasAccess else if actor in f.pending then AlreadyAsked else Done
    case Approve(_, target, actor) => if f.owner != actor then Denied else Done
    case Reject(_, target, actor) => if f.owner != actor then Denied else Done
    case Annotate(_, note, actor) => if CheckPermission(f, actor, 'W') then Done else Denied
    case Delete(_, actor, acked) => if f.owner != actor then Denied else if !acked then ServerFailed else Done
    case _ => Done
  }

  /** A CREATE is answered as far as the name server decides alone. */
  function Answer(st: State, s: Step): Reply {
    match s
    case RegisterUser(_, _) => Done
    case RegisterServer(_, _) => Done
    case Create(name, _) => NewAnswer(st, name, NoServer)
    case CreateFolder(name, _) => NewAnswer(st, name, Crash)
    case _ => var f := Find(st.files, s.name); if f.None? then NotFound else ReplyFor(st, f.value, s)
  }

  function NewAnswer(st: State, name: string, unserved: Reply): Reply {
    if Find(st.files, name).Some? then AlreadyExists else if st.servers == [] then unserved else Done
  }

  /** The delete of the source: the cache entry, refreshed by the lookup, stays behind. */
  function DeleteAsWritten(st: State, name: string, actor: string, acked: bool): State {
    if Deletes(st, name, actor, acked) then Seen(st, name).(files := DropFile(st.files, name))
    else Do(st, Delete(name, actor, acked))
  }

  /** The request comes from the owner and the storage server acknowledged it. */
  predicate Deletes(st: State, name: string, actor: string, acked: bool) {
    var f := Find(st.files, name);
    f.Some? && f.value.owner == actor && acked
  }

  // ---- The invariant of every run ----

  ghost predicate AclDistinct(acl: seq<Access>) { forall i, j :: 0 <= i < j < |acl| ==> acl[i].user != acl[j].user }

  ghost predicate FileOk(f: FileRec) { AclDistinct(f.acl) && Distinct(f.pending) }

  ghost predicate NamesDistinct(files: seq<FileRec>) {
    forall i, j :: 0 <= i < j < |files| ==> files[i].name != files[j].name
  }

  /** File names are unique, no list names a user twice, and the cache holds at most 16 names, all of existing files. */
  ghost predicate Inv(st: State) {
    && NamesDistinct(st.files)
    && (forall f :: f in st.files ==> FileOk(f))
    && Distinct(st.cached) && |st.cached| <= 16
    && (forall k :: k in st.cached ==> Find(st.files, k).Some?)
  }

  lemma {:induction false} FindFacts(files: seq<FileRec>, name: string)
    ensures Find(files, name).Some? <==> exists f :: f in files && f.name == name
    ensures NamesDistinct(files) ==> forall f :: f in files && f.name == name ==> Find(files, name) == Some(f)
  {
    if files != [] {
      FindFacts(files[1..], name);
      assert files == [files[0]] + files[1..];
    }
  }

  lemma TouchFacts(cached: seq<string>, name: string)
    requires Distinct(cached) && |cached| <= CACHE_SIZE
    ensures var t := Touch(cached, name, CACHE_SIZE);
      Distinct(t) && |t| <= CACHE_SIZE && name in t && forall k :: k in t ==> k in cached || k == name
  {
    DropFacts(cached, name);
  }

  lemma {:induction false} GrantFacts(acl: seq<Access>, user: string)
    ensures Grant(acl, user).Some? <==> exists a :: a in acl && a.user == user
    ensures AclDistinct(acl) ==> forall a :: a in acl && a.user == user ==> Grant(acl, user) == Some(a.perm)
  {
    if acl != [] {
      GrantFacts(acl[1..], user);
      assert acl == [acl[0]] + acl[1..];
    }
  }

  /** Setting one user's access sets it and no other's. */
  lemma {:induction false} SetAccessFacts(acl: seq<Access>, user: string, perm: char)
    ensures forall u :: Grant(SetAccess(acl, user, perm), u) == if u == user then Some(perm) else Grant(acl, u)
    ensures AclDistinct(acl) ==> AclDistinct(SetAccess(acl, user, perm))
  {
    ChangeFacts(acl, user, perm);
    GrantFacts(acl, user);
    assert ([Access(user, perm)] + acl)[1..] == acl;
  }

  lemma {:induction false} ChangeFacts(acl: seq<Access>, user: string, perm: char)
    ensures |ChangeAccess(acl, user, perm)| == |acl|
    ensures forall i :: 0 <= i < |acl| ==> ChangeAccess(acl, user, perm)[i].user == acl[i].user
    ensures forall u ::
      Grant(ChangeAccess(acl, user, perm), u)
        == (if u == user && Grant(acl, user).Some? then Some(perm) else Grant(acl, u))
  {
    if acl != [] && acl[0].user != user {
      ChangeFacts(acl[1..], user, perm);
    }
  }

  /** Removing a user from a list without repetitions removes that user and no other. */
  lemma {:induction false} DropAccessFacts(acl: seq<Access>, user: string)
    ensures forall u :: u != user ==> Grant(DropAccess(acl, user), u) == Grant(acl, u)
    ensures AclDistinct(acl) ==> AclDistinct(DropAccess(acl, user)) && Grant(DropAccess(acl, user), user).None?
    ensures forall a :: a in DropAccess(acl, user) ==> a in acl
  {
    if acl != [] {
      assert acl == [acl[0]] + acl[1..];
      if acl[0].user == user {
        GrantFacts(acl[1..], user);
      } else {
        DropAccessFacts(acl[1..], user);
        var d := DropAccess(acl[1..], user);
        if AclDistinct(acl) {
          assert AclDistinct(acl[1..]);
          assert forall a :: a in acl[1..] ==> a.user != acl[0].user;
          assert forall i :: 0 <= i < |d| ==> d[i] in d;
        }
      }
    }
  }

  lemma {:induction false} DropRequestFacts(pending: seq<string>, user: string)
    ensures Distinct(pending) ==> DropRequest(pending, user) == Drop(pending, user)
  {
    if pending != [] {
      DropRequestFacts(pending[1..], user);
      if pending[0] == user && Distinct(pending) {
        assert user !in pending[1..];
        DropFacts(pending[1..], user);
      }
    }
  }

  lemma ChangeOk(st: State, f: FileRec, s: Step)
    requires FileOk(f)
    ensures FileOk(Change(st, f, s)) && Change(st, f, s).name == f.name && Change(st, f, s).owner == f.owner
  {
    hide Grant, SetAccess, DropAccess, DropRequest, CheckPermission, Drop;
    if s.AddAccess? { SetAccessFacts(f.acl, s.target, s.perm); }
    if s.RemAccess? { DropAccessFacts(f.acl, s.target); }
    if s.Approve? || s.Reject? { DropRequestFacts(f.pending, s.target); DropFacts(f.pending, s.target); }
    if s.Approve? { GrantFacts(f.acl, s.target); }
  }

  lemma {:induction false} DropFileFacts(files: seq<FileRec>, name: string)
    requires NamesDistinct(files)
    ensures NamesDistinct(DropFile(files, name))
    ensures forall f :: f in DropFile(files, name) <==> f in files && f.name != name
  {
    if files != [] {
      assert files == [files[0]] + files[1..];
      DropFileFacts(files[1..], name);
    }
  }

  lemma AddFile(st: State, f: FileRec)
    requires Inv(st) && FileOk(f) && Find(st.files, f.name).None?
    ensures Inv(st.(files := [f] + st.files))
  {
    FindFacts(st.files, f.name);
    assert ([f] + st.files)[1..] == st.files;
  }

  lemma SeenKeeps(st: State, name: string)
    requires Inv(st) && Find(st.files, name).Some?
    ensures Inv(Seen(st, name))
  {
    TouchFacts(st.cached, name);
    hide Touch, Find;
  }

  lemma {:induction false} RegisterKeeps(st: State, server: Server, names: seq<string>)
    requires Inv(st)
    ensures Inv(RegisterNames(st, server, names))
    decreases |names|
  {
    hide Inv;
    if names != [] {
      if Find(st.files, names[0]).Some? { SeenKeeps(st, names[0]); }
      else { AddFile(st, FileRec(names[0], "ss_owner", false, server, [], [], "")); }
      RegisterKeeps(RegisterName(st, server, names[0]), server, names[1..]);
    }
  }

  lemma AlterKeeps(st: State, s: Step)
    requires Inv(st) && OnOneFile(s)
    ensures Inv(st.(files := Alter(st, s)))
  {
    hide Change, Find, Touch;
    var files := Alter(st, s);
    forall i | 0 <= i < |files| ensures FileOk(files[i]) && files[i].name == st.files[i].name {
      assert st.files[i] in st.files;
      ChangeOk(st, st.files[i], s);
    }
    forall k | k in st.cached ensures Find(files, k).Some? {
      FindFacts(st.files, k);
      FindFacts(files, k);
      var f :| f in st.files && f.name == k;
      var i :| 0 <= i < |files| && st.files[i] == f;
      assert files[i] in files;
    }
  }

  lemma DeleteKeeps(st: State, name: string)
    requires Inv(st)
    ensures Inv(st.(files := DropFile(st.files, name), cached := Drop(Touch(st.cached, name, CACHE_SIZE), name)))
  {
    hide Touch, Find, DropFile, Drop;
    TouchFacts(st.cached, name);
    DropFacts(Touch(st.cached, name, CACHE_SIZE), name);
    DropFileFacts(st.files, name);
    forall k | k in st.cached && k != name ensures Find(DropFile(st.files, name), k).Some? {
      FindFacts(st.files, k);
      FindFacts(DropFile(st.files, name), k);
    }
  }

  /** Every step keeps the invariant. */
  lemma StepKeeps(st: State, s: Step)
    requires Inv(st)
    ensures Inv(Do(st, s))
  {
    hide Inv, Find, Touch, Drop, DropFile, Alter, RegisterNames;
    match s
    case RegisterUser(name, ip) => UsersFree(st, Do(st, s).users);
    case RegisterServer(server, names) =>
      if server !in st.servers {
        ServersFree(st, [server] + st.servers);
        RegisterKeeps(st.(servers := [server] + st.servers), server, names);
      }
    case Create(name, actor) =>
      if Find(st.files, name).Some? { SeenKeeps(st, name); }
      else if st.servers != [] { AddFile(st, NewFile(name, actor, false, st.servers[0])); }
    case CreateFolder(name, actor) =>
      if Find(st.files, name).Some? { SeenKeeps(st, name); }
      else if st.servers != [] { AddFile(st, NewFile(name, actor, true, st.servers[0])); }
    case Delete(name, actor, acked) =>
      if Find(st.files, name).Some? { SeenKeeps(st, name); DeleteKeeps(st, name); }
    case _ =>
      if Find(st.files, s.name).Some? {
        SeenKeeps(st, s.name);
        AlterKeeps(Seen(st, s.name), s);
        SameChange(st, Seen(st, s.name), s);
      }
  }

  lemma UsersFree(st: State, users: seq<User>)
    requires Inv(st)
    ensures Inv(st.(users := users))
  {
  }

  lemma ServersFree(st: State, servers: seq<Server>)
    requires Inv(st)
    ensures Inv(st.(servers := servers))
  {
  }

  lemma SameChange(st: State, st': State, s: Step)
    requires st.users == st'.users
    requires OnOneFile(s) && st.files == st'.files
    ensures Alter(st, s) == Alter(st', s)
  {
    hide SetAccess, DropAccess, CheckPermission, KnownUser;
  }

  function After(st: State, run: seq<Step>): State {
    if run == [] then st else Do(After(st, run[..|run| - 1]), run[|run| - 1])
  }

  /** So it holds after every run from a state that meets it. */
  lemma {:induction false} RunKeeps(st: State, run: seq<Step>)
    requires Inv(st)
    ensures Inv(After(st, run))
  {
    hide Inv, Do;
    if run != [] {
      RunKeeps(st, run[..|run| - 1]);
      StepKeeps(After(st, run[..|run| - 1]), run[|run| - 1]);
    }
  }
}
