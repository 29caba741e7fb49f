/** Which files there are, whose they are, where they lie and what is noted about them, over whole runs. */
module FileFacts {
  import opened Text
  import opened Recency
  import opened Metadata
  import opened AccessControl
  import Answers

  datatype Facts = Facts(owner: string, isDirectory: bool, server: Server, note: string)

  /** None when there is no file of that name. */
  function FactsOf(st: State, name: string): Option<Facts> {
    match Find(st.files, name)
    case None => None
    case Some(f) => Some(Facts(f.owner, f.isDirectory, f.server, f.note))
  }

  /** What a step, taken in state st, makes of the facts prev about name. */
  function NextFacts(st: State, s: Step, name: string, prev: Option<Facts>): Option<Facts> {
    match s
    case Create(n, actor) =>
      if n == name && prev.None? && st.servers != [] then Some(Facts(actor, false, st.servers[0], "")) else prev
    case CreateFolder(n, actor) =>
      if n == name && prev.None? && st.servers != [] then Some(Facts(actor, true, st.servers[0], "")) else prev
    case RegisterServer(server, names) =>
      if prev.None? && server !in st.servers && name in names then Some(Facts("ss_owner", false, server, "")) else prev
    case Delete(n, actor, acked) =>
      if n == name && prev.Some? && prev.value.owner == actor && acked then None else prev
    case Annotate(n, note, actor) =>
      if n == name && prev.Some? && (prev.value.owner == actor || Perm(st, name, actor) == Some('W'))
      then Some(prev.value.(note := if |note| <= 255 then note else note[..255]))
      else prev
    case _ => prev
  }

  /** The fold of those steps over a run. */
  function FactsHistory(st: State, run: seq<Step>, name: string): Option<Facts> {
    if run == [] then FactsOf(st, name)
    else
      var k := |run| - 1;
      NextFacts(After(st, run[..k]), run[k], name, FactsHistory(st, run[..k], name))
  }

  lemma {:induction false} FindAppended(a: seq<FileRec>, b: seq<FileRec>, name: string)
    ensures Find(a + b, name) == if Find(a, name).Some? then Find(a, name) else Find(b, name)
  {
    if a == [] {
      assert a + b == b;
    } else {
      FindAppended(a[1..], b, name);
      assert (a + b)[0] == a[0] && (a + b)[1..] == a[1..] + b;
    }
  }

  lemma FactsAdded(st: State, f: FileRec, name: string)
    requires Find(st.files, f.name).None?
    ensures FactsOf(st.(files := [f] + st.files), name)
      == if name == f.name then Some(Facts(f.owner, f.isDirectory, f.server, f.note)) else FactsOf(st, name)
  {
    assert ([f] + st.files)[1..] == st.files;
  }

  lemma FactsRegistered(st: State, server: Server, names: seq<string>, name: string)
    ensures FactsOf(RegisterNames(st, server, names), name)
      == if FactsOf(st, name).None? && name in names
         then Some(Facts("ss_owner", false, server, "")) else FactsOf(st, name)
  {
    hide Find, RegisterNames;
    var added := Answers.RegisterAdds(st, server, names);
    FindAppended(added, st.files, name);
    FindFacts(added, name);
    FindFacts(st.files, name);
    if Find(added, name).Some? {
      var f := Find(added, name).value;
      var i :| 0 <= i < |added| && added[i] == f;
      assert Answers.Newcomer(st.files, added[i], server, names);
    }
  }

  lemma MayAnnotate(f: FileRec, actor: string)
    requires FileOk(f)
    ensures CheckPermission(f, actor, 'W') <==> f.owner == actor || Grant(f.acl, actor) == Some('W')
  {
    GrantFacts(f.acl, actor);
  }

  lemma FactsAltered(st: State, s: Step, name: string)
    requires Inv(st) && OnOneFile(s) && Find(st.files, s.name).Some?
    ensures FactsOf(Do(st, s), name) == NextFacts(st, s, name, FactsOf(st, name))
  {
    hide Find, Touch, SetAccess, DropAccess, CheckPermission, KnownUser, DropRequest, Grant, Alter;
    AlterFind(st, s, name);
    if name == s.name {
      var f := Find(st.files, name).value;
      assert FileOk(f);
      if s.Annotate? { MayAnnotate(f, s.actor); }
    }
  }

  /** One step changes exactly what NextFacts says. */
  lemma FactsStep(st: State, s: Step, name: string)
    requires Inv(st)
    ensures FactsOf(Do(st, s), name) == NextFacts(st, s, name, FactsOf(st, name))
  {
    hide Inv, Find, Touch, Drop, DropFile, Alter, RegisterNames, SetIp, KnownUser, Change, Grant;
    match s
    case RegisterUser(_, _) =>
    case RegisterServer(server, names) =>
      FactsRegistered(st.(servers := [server] + st.servers), server, names, name);
    case Create(n, actor) =>
      if Makes(st, n) { FactsAdded(st, NewFile(n, actor, false, st.servers[0]), name); }
    case CreateFolder(n, actor) =>
      if Makes(st, n) { FactsAdded(st, NewFile(n, actor, true, st.servers[0]), name); }
    case Delete(n, actor, acked) =>
      NamesOf(st);
      PermDropped(st.files, n, name);
    case _ =>
      if Find(st.files, s.name).Some? { FactsAltered(st, s, name); }
  }

  /** Over every run a name is found exactly when it was created or registered after its last deletion, its owner is who
      created it, or nobody real, and its note is the last one set by who may write. */
  lemma {:induction false} FactsOverRuns(st: State, run: seq<Step>, name: string)
    requires Inv(st)
    ensures FactsOf(After(st, run), name) == FactsHistory(st, run, name)
  {
    hide Inv, Do, FactsOf, NextFacts;
    if run != [] {
      var r := run[..|run| - 1];
      FactsOverRuns(st, r, name);
      RunKeeps(st, r);
      FactsStep(After(st, r), run[|run| - 1], name);
    }
  }

  // ---- Users and servers ----

  /** A user is known exactly if registered, under the address given last; servers come in the order of their first
      registration, the newest first. */
  lemma DirectoryStep(st: State, s: Step)
    ensures Do(st, s).servers
      == if s.RegisterServer? && s.server !in st.servers then [s.server] + st.servers else st.servers
    ensures !s.RegisterUser? ==> Do(st, s).users == st.users
    ensures s.RegisterUser? ==>
      (exists u :: u in Do(st, s).users && u == User(s.name, s.ip))
      && (forall n :: KnownUser(Do(st, s).users, n) <==> n == s.name || KnownUser(st.users, n))
  {
    hide Find, Touch, Drop, DropFile, Alter, RegisterNames, SetIp;
    if s.RegisterServer? {
      var added := Answers.RegisterAdds(st.(servers := [s.server] + st.servers), s.server, s.names);
    }
    if s.RegisterUser? { UserSet(st.users, Do(st, s).users, s.name, s.ip); }
  }

  lemma UserSet(before: seq<User>, after: seq<User>, name: string, ip: string)
    requires after == if KnownUser(before, name) then SetIp(before, name, ip) else [User(name, ip)] + before
    ensures exists u :: u in after && u == User(name, ip)
    ensures forall n :: KnownUser(after, n) <==> n == name || KnownUser(before, n)
  {
    hide SetIp;
    if KnownUser(before, name) {
      var k := Answers.SetIpAt(before, name, ip);
      assert after[k] == User(name, ip) && after[k] in after;
      forall n ensures KnownUser(after, n) <==> KnownUser(before, n) {
        if u :| u in before && u.name == n {
          var j :| 0 <= j < |before| && before[j] == u;
          assert after[j] in after && after[j].name == n;
        }
        if u :| u in after && u.name == n {
          var j :| 0 <= j < |after| && after[j] == u;
          assert before[j] in before && before[j].name == n;
        }
      }
    } else {
      assert after[0] == User(name, ip) && after[0] in after;
      assert forall u :: u in after <==> u == after[0] || u in before;
    }
  }

  // ---- Which answer ----

  ghost predicate Exists(st: State, name: string) { exists f :: f in st.files && f.name == name }

  ghost predicate OwnedBy(st: State, name: string, actor: string) {
    exists f :: f in st.files && f.name == name && f.owner == actor
  }

  /** The actor owns the file or has an entry with the permission, or with 'W'. */
  ghost predicate May(st: State, name: string, actor: string, perm: char) {
    exists f :: f in st.files && f.name == name && (f.owner == actor ||
      exists a :: a in f.acl && a.user == actor && (a.perm == 'W' || a.perm == perm))
  }

  ghost predicate Asked(st: State, name: string, actor: string) {
    exists f :: f in st.files && f.name == name && actor in f.pending
  }

  ghost predicate Entered(st: State, name: string, user: string) {
    exists f :: f in st.files && f.name == name && exists a :: a in f.acl && a.user == user
  }

  predicate ForOwner(s: Step) { s.AddAccess? || s.RemAccess? || s.Approve? || s.Reject? || s.Delete? }

  /** Each answer is given exactly when its reason holds and no earlier check failed. */
  lemma AnswerKinds(st: State, s: Step)
    requires Inv(st)
    ensures s.RegisterUser? || s.RegisterServer? ==> Answer(st, s) == Done
    ensures s.Create? || s.CreateFolder? ==>
      (Answer(st, s) == AlreadyExists <==> Exists(st, s.name))
      && (Answer(st, s) == NoServer <==> s.Create? && !Exists(st, s.name) && st.servers == [])
      && (Answer(st, s) == Crash <==> s.CreateFolder? && !Exists(st, s.name) && st.servers == [])
      && (Answer(st, s) == Done <==> !Exists(st, s.name) && st.servers != [])
    ensures OnOneFile(s) || s.Delete? ==> (Answer(st, s) == NotFound <==> !Exists(st, s.name))
    ensures ForOwner(s) && Exists(st, s.name) ==> (Answer(st, s) == Denied <==> !OwnedBy(st, s.name, s.actor))
    ensures ForOwner(s) && OwnedBy(st, s.name, s.actor) ==>
      && (s.AddAccess? ==> var known := exists u :: u in st.users && u.name == s.target;
            Answer(st, s) == if !known then UserUnknown else if s.perm !in {'R', 'W'} then BadInput else Done)
      && (s.RemAccess? ==> Answer(st, s) == if Entered(st, s.name, s.target) then Done else NoEntry)
      && (s.Approve? || s.Reject? ==> Answer(st, s) == Done)
      && (s.Delete? ==> Answer(st, s) == if s.acked then Done else ServerFailed)
    ensures s.RequestAccess? && Exists(st, s.name) ==>
      Answer(st, s) == if May(st, s.name, s.actor, 'R') then HasAccess
                       else if Asked(st, s.name, s.actor) then AlreadyAsked else Done
    ensures s.Annotate? && Exists(st, s.name) ==>
      Answer(st, s) == if May(st, s.name, s.actor, 'W') then Done else Denied
  {
    hide Find, Grant;
    if !s.RegisterUser? && !s.RegisterServer? {
      NamesOf(st);
      FindFacts(st.files, s.name);
      if Find(st.files, s.name).Some? {
        var f := Find(st.files, s.name).value;
        OnlyOne(st.files, f);
        if s.RemAccess? { GrantFacts(f.acl, s.target); }
      }
    }
  }

  lemma OnlyOne(files: seq<FileRec>, f: FileRec)
    requires NamesDistinct(files) && f in files
    ensures forall g :: g in files && g.name == f.name ==> g == f
  {
  }
}
