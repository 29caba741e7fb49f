/** What the name server's answers tell a client, and what every step makes of each part of the state, written out. */
module Answers {
  import opened Text
  import opened Recency
  import opened Metadata
  import opened AccessControl

  // ---- One change to one file ----

  lemma {:induction false} FindAt(files: seq<FileRec>, name: string) returns (i: nat)
    requires NamesDistinct(files) && Find(files, name).Some?
    ensures i < |files| && files[i].name == name && Find(files, name) == Some(files[i])
    ensures forall j :: 0 <= j < |files| && j != i ==> files[j].name != name
  {
    hide Find;
    FindFacts(files, name);
    i :| 0 <= i < |files| && files[i].name == name;
    assert files[i] in files;
  }

  lemma AlterAt(st: State, s: Step, i: nat)
    requires OnOneFile(s) && i < |st.files| && st.files[i].name == s.name
    requires forall j :: 0 <= j < |st.files| && j != i ==> st.files[j].name != s.name
    ensures Alter(st, s) == st.files[i := Change(st, st.files[i], s)]
  {
    hide Change;
  }

  lemma ChangedAt(st: State, s: Step) returns (i: nat)
    requires Inv(st) && OnOneFile(s) && Find(st.files, s.name).Some?
    ensures i < |st.files| && st.files[i].name == s.name && Find(st.files, s.name) == Some(st.files[i])
    ensures Do(st, s).files == st.files[i := Change(st, st.files[i], s)]
    ensures Do(st, s).servers == st.servers && Do(st, s).users == st.users
    ensures FileOk(st.files[i])
  {
    NamesOf(st);
    assert forall j :: 0 <= j < |st.files| ==> st.files[j] in st.files;
    hide Find, Change, Alter, Touch;
    i := FindAt(st.files, s.name);
    AlterAt(st, s, i);
  }

  /** The user's first entry has the permission, or a new one stands at the head. */
  ghost predicate Given(before: seq<Access>, after: seq<Access>, user: string, perm: char) {
    if forall a :: a in before ==> a.user != user then after == [Access(user, perm)] + before
    else exists k :: 0 <= k < |before| && before[k].user == user && after == before[k := Access(user, perm)]
  }

  /** One entry of the user is gone. */
  ghost predicate Taken(before: seq<Access>, after: seq<Access>, user: string) {
    exists k :: 0 <= k < |before| && before[k].user == user && after == before[..k] + before[k + 1..]
  }

  lemma {:induction false} ChangeGives(acl: seq<Access>, user: string, perm: char) returns (k: nat)
    requires Grant(acl, user).Some?
    ensures k < |acl| && acl[k].user == user && ChangeAccess(acl, user, perm) == acl[k := Access(user, perm)]
    ensures DropAccess(acl, user) == acl[..k] + acl[k + 1..]
  {
    if acl[0].user == user {
      k := 0;
    } else {
      var later := ChangeGives(acl[1..], user, perm);
      k := later + 1;
      assert acl[..k] == [acl[0]] + acl[1..][..later] && acl[k + 1..] == acl[1..][later + 1..];
    }
  }

  lemma SetGives(acl: seq<Access>, user: string, perm: char)
    ensures Given(acl, SetAccess(acl, user, perm), user, perm)
  {
    hide ChangeAccess, DropAccess;
    GrantFacts(acl, user);
    if Grant(acl, user).Some? {
      var k := ChangeGives(acl, user, perm);
      assert acl[k] in acl;
    }
  }

  lemma DropTakes(acl: seq<Access>, user: string)
    requires Grant(acl, user).Some?
    ensures Taken(acl, DropAccess(acl, user), user)
  {
    hide DropAccess;
    var k := ChangeGives(acl, user, 'R');
  }

  lemma {:induction false} NothingDropped(acl: seq<Access>, user: string)
    ensures Grant(acl, user).None? ==> DropAccess(acl, user) == acl
  {
    if acl != [] { NothingDropped(acl[1..], user); }
  }

  // ---- A registering storage server ----

  predicate Has(files: seq<FileRec>, name: string) { exists f :: f in files && f.name == name }

  /** A new file of the server, owned by nobody real and open to no one. */
  predicate Newcomer(before: seq<FileRec>, f: FileRec, server: Server, names: seq<string>) {
    f == FileRec(f.name, "ss_owner", false, server, [], [], "") && f.name in names && !Has(before, f.name)
  }

  ghost predicate ListedBefore(names: seq<string>, a: string, b: string) {
    exists p :: 0 <= p < |names| && names[p] == a && b !in names[..p + 1]
  }

  /** The files added for a list of names: one for each that was unknown, the one listed first coming last. */
  ghost predicate Newcomers(before: seq<FileRec>, added: seq<FileRec>, server: Server, names: seq<string>) {
    && (forall i :: 0 <= i < |added| ==> Newcomer(before, added[i], server, names))
    && (forall name :: name in names ==> Has(before, name) || Has(added, name))
    && (forall i, j :: 0 <= i < j < |added| ==> ListedBefore(names, added[j].name, added[i].name))
  }

  lemma ListedLater(names: seq<string>, a: string, b: string)
    requires names != [] && ListedBefore(names[1..], a, b) && b != names[0]
    ensures ListedBefore(names, a, b)
  {
    var p :| 0 <= p < |names[1..]| && names[1..][p] == a && b !in names[1..][..p + 1];
    assert names[..p + 2] == [names[0]] + names[1..][..p + 1];
    assert names[p + 1] == a;
  }

  lemma ListedFirst(names: seq<string>, b: string)
    requires names != [] && b != names[0]
    ensures ListedBefore(names, names[0], b)
  {
    assert names[..1] == [names[0]];
    assert b !in names[..0 + 1];
  }

  lemma HasMore(a: seq<FileRec>, b: seq<FileRec>, name: string)
    ensures Has(a + b, name) <==> Has(a, name) || Has(b, name)
  {
  }

  lemma HasOne(f: FileRec, name: string)
    ensures Has([f], name) <==> f.name == name
  {
    assert f in [f];
  }

  lemma NameKnown(before: seq<FileRec>, added: seq<FileRec>, server: Server, names: seq<string>)
    requires names != [] && Has(before, names[0]) && Newcomers(before, added, server, names[1..])
    ensures Newcomers(before, added, server, names)
  {
    hide Has, ListedBefore;
    assert names == [names[0]] + names[1..];
    forall i | 0 <= i < |added| ensures Newcomer(before, added[i], server, names) && added[i].name != names[0] {
      assert Newcomer(before, added[i], server, names[1..]);
    }
    forall i, j | 0 <= i < j < |added| ensures ListedBefore(names, added[j].name, added[i].name) {
      ListedLater(names, added[j].name, added[i].name);
    }
  }

  lemma NameAdded(before: seq<FileRec>, f: FileRec, added: seq<FileRec>, server: Server, names: seq<string>)
    requires names != [] && !Has(before, names[0]) && f == FileRec(names[0], "ss_owner", false, server, [], [], "")
    requires Newcomers([f] + before, added, server, names[1..])
    ensures Newcomers(before, added + [f], server, names)
  {
    hide Has, ListedBefore;
    assert names == [names[0]] + names[1..];
    forall name ensures Has([f] + before, name) <==> f.name == name || Has(before, name) {
      HasMore([f], before, name);
      HasOne(f, name);
    }
    forall name ensures Has(added + [f], name) <==> Has(added, name) || f.name == name {
      HasMore(added, [f], name);
      HasOne(f, name);
    }
    forall i | 0 <= i < |added| ensures Newcomer(before, added[i], server, names) && added[i].name != names[0] {
      assert Newcomer([f] + before, added[i], server, names[1..]);
    }
    forall i, j | 0 <= i < j < |added + [f]| ensures ListedBefore(names, (added + [f])[j].name, (added + [f])[i].name) {
      if j < |added| { ListedLater(names, added[j].name, added[i].name); } else { ListedFirst(names, added[i].name); }
    }
  }

  lemma {:induction false} RegisterAdds(st: State, server: Server, names: seq<string>) returns (added: seq<FileRec>)
    ensures var after := RegisterNames(st, server, names);
      after.files == added + st.files && after.servers == st.servers && after.users == st.users
    ensures Newcomers(st.files, added, server, names)
    decreases |names|
  {
    hide Touch, Newcomers, Find;
    if names == [] {
      added := [];
      NoNames(st.files, server);
    } else {
      var st' := RegisterName(st, server, names[0]);
      FindFacts(st.files, names[0]);
      var later := RegisterAdds(st', server, names[1..]);
      if Find(st.files, names[0]).Some? {
        added := later;
        NameKnown(st.files, added, server, names);
      } else {
        var f := FileRec(names[0], "ss_owner", false, server, [], [], "");
        added := later + [f];
        NameAdded(st.files, f, later, server, names);
      }
    }
  }

  lemma NoNames(files: seq<FileRec>, server: Server)
    ensures Newcomers(files, [], server, [])
  {
  }

  // ---- Users ----

  /** The user's address is set, or a new user stands at the head. */
  ghost predicate Addressed(before: seq<User>, after: seq<User>, name: string, ip: string) {
    if forall u :: u in before ==> u.name != name then after == [User(name, ip)] + before
    else exists k :: 0 <= k < |before| && before[k].name == name && after == before[k := User(name, ip)]
  }

  lemma {:induction false} SetIpAt(users: seq<User>, name: string, ip: string) returns (k: nat)
    requires exists u :: u in users && u.name == name
    ensures k < |users| && users[k].name == name && SetIp(users, name, ip) == users[k := User(name, ip)]
  {
    assert users == [users[0]] + users[1..];
    if users[0].name == name {
      k := 0;
    } else {
      var later := SetIpAt(users[1..], name, ip);
      k := later + 1;
    }
  }

  // ---- What every step does ----

  /** What "done" tells the client about the state afterwards. */
  ghost predicate Told(st: State, s: Step) {
    var after := Do(st, s);
    match s
    case RegisterUser(name, ip) =>
      after.files == st.files && after.servers == st.servers && Addressed(st.users, after.users, name, ip)
    case RegisterServer(server, names) =>
      after.users == st.users &&
      if server in st.servers then after == st
      else
        && after.servers == [server] + st.servers
        && exists added :: after.files == added + st.files && Newcomers(st.files, added, server, names)
    case Create(n, actor) => st.servers != [] &&
      after == st.(files := [FileRec(n, actor, false, st.servers[0], [Access(actor, 'W')], [], "")] + st.files)
    case CreateFolder(n, actor) => st.servers != [] &&
      after == st.(files := [FileRec(n, actor, true, st.servers[0], [Access(actor, 'W')], [], "")] + st.files)
    case Delete(n, actor, acked) =>
      acked && after.servers == st.servers && after.users == st.users && n !in after.cached &&
      exists i :: 0 <= i < |st.files| && st.files[i].name == n && st.files[i].owner == actor
        && after.files == st.files[..i] + st.files[i + 1..]
    case Lookup(n) => after.files == st.files && after.servers == st.servers && after.users == st.users
    case _ =>
      after.servers == st.servers && after.users == st.users &&
      exists i, f :: 0 <= i < |st.files| && st.files[i].name == s.name && after.files == st.files[i := f]
        && Rewritten(st, s, st.files[i], f)
  }

  /** What a request on one file makes of it. */
  ghost predicate Rewritten(st: State, s: Step, f: FileRec, g: FileRec) {
    match s
    case AddAccess(_, target, perm, actor) =>
      f.owner == actor && perm in {'R', 'W'} && g == f.(acl := g.acl) && Given(f.acl, g.acl, target, perm)
    case RemAccess(_, target, actor) =>
      f.owner == actor && g == f.(acl := g.acl) && Taken(f.acl, g.acl, target)
    case RequestAccess(_, actor) =>
      actor !in f.pending && g == f.(pending := [actor] + f.pending)
    case Approve(_, target, actor) =>
      && f.owner == actor && g == f.(acl := g.acl, pending := Drop(f.pending, target))
      && if exists a :: a in f.acl && a.user == target then g.acl == f.acl else g.acl == [Access(target, 'R')] + f.acl
    case Reject(_, target, actor) =>
      f.owner == actor && g == f.(pending := Drop(f.pending, target))
    case Annotate(_, note, actor) =>
      g == f.(note := if |note| <= 255 then note else note[..255])
    case _ => g == f
  }

  /** Every "done" is true. */
  lemma DoneIsTrue(st: State, s: Step)
    requires Inv(st) && Answer(st, s).Done?
    ensures Told(st, s)
  {
    hide Told, Inv, Answer;
    if s.RegisterUser? { DoneUser(st, s.name, s.ip); }
    else if s.RegisterServer? { DoneServer(st, s.server, s.names); }
    else if s.Create? || s.CreateFolder? { DoneCreate(st, s); }
    else if s.Delete? { DoneDelete(st, s.name, s.actor, s.acked); }
    else if s.Lookup? { DoneLookup(st, s.name); }
    else { DoneOnOneFile(st, s); }
  }

  lemma DoneUser(st: State, name: string, ip: string)
    ensures Told(st, RegisterUser(name, ip))
  {
    hide SetIp;
    if KnownUser(st.users, name) { var k := SetIpAt(st.users, name, ip); }
  }

  lemma DoneServer(st: State, server: Server, names: seq<string>)
    ensures Told(st, RegisterServer(server, names))
  {
    hide RegisterNames, Newcomers;
    if server !in st.servers { var added := RegisterAdds(st.(servers := [server] + st.servers), server, names); }
  }

  lemma DoneCreate(st: State, s: Step)
    requires (s.Create? || s.CreateFolder?) && Answer(st, s).Done?
    ensures Told(st, s)
  {
    hide Find, Touch;
  }

  lemma DoneDelete(st: State, name: string, actor: string, acked: bool)
    requires Inv(st) && Answer(st, Delete(name, actor, acked)).Done?
    ensures Told(st, Delete(name, actor, acked))
  {
    NamesOf(st);
    hide Find, DropFile, Touch, Drop, Inv;
    var i := FindAt(st.files, name);
    DropFileIs(st.files, name, i);
    DropFacts(Touch(st.cached, name, CACHE_SIZE), name);
  }

  lemma {:induction false} DropFileIs(files: seq<FileRec>, name: string, i: nat)
    requires i < |files| && files[i].name == name && forall j :: 0 <= j < i ==> files[j].name != name
    ensures DropFile(files, name) == files[..i] + files[i + 1..]
    decreases i
  {
    if i > 0 {
      DropFileIs(files[1..], name, i - 1);
      assert files[..i] == [files[0]] + files[1..][..i - 1] && files[i + 1..] == files[1..][i..];
    }
  }

  lemma DoneLookup(st: State, name: string)
    requires Inv(st)
    ensures Told(st, Lookup(name))
  {
    if Find(st.files, name).Some? {
      hide Find, Touch, Alter, Inv;
      var i := ChangedAt(st, Lookup(name));
    } else {
      hide Find;
    }
  }

  lemma DoneOnOneFile(st: State, s: Step)
    requires Inv(st) && OnOneFile(s) && !s.Lookup? && Answer(st, s).Done?
    ensures Told(st, s)
  {
    hide Find, Do, Inv, Change;
    var i := ChangedAt(st, s);
    var f := Change(st, st.files[i], s);
    DoneRewrites(st, s, st.files[i]);
    hide Rewritten;
    assert 0 <= i < |st.files| && Rewritten(st, s, st.files[i], f);
  }

  lemma DoneRewrites(st: State, s: Step, f: FileRec)
    requires OnOneFile(s) && !s.Lookup? && ReplyFor(st, f, s).Done? && FileOk(f)
    ensures Rewritten(st, s, f, Change(st, f, s))
  {
    hide SetAccess, DropAccess, DropRequest, CheckPermission, KnownUser, Grant, Given, Taken, Drop;
    if s.AddAccess? { SetGives(f.acl, s.target, s.perm); }
    if s.RemAccess? { DropTakes(f.acl, s.target); }
    if s.Approve? || s.Reject? { DropRequestFacts(f.pending, s.target); }
    if s.Approve? { GrantFacts(f.acl, s.target); }
  }

  /** A request that is not carried out changes no file, server or user. */
  lemma RefusedChangesNothing(st: State, s: Step)
    requires Inv(st) && !Answer(st, s).Done?
    ensures Do(st, s).(cached := st.cached) == st
  {
    hide Inv, Find, Touch, Drop, DropFile, Alter, Change;
    if OnOneFile(s) && Find(st.files, s.name).Some? {
      var i := ChangedAt(st, s);
      RefusedKeeps(st, s, st.files[i]);
      assert st.files[i := st.files[i]] == st.files;
    }
  }

  lemma RefusedKeeps(st: State, s: Step, f: FileRec)
    requires OnOneFile(s) && !ReplyFor(st, f, s).Done?
    ensures Change(st, f, s) == f
  {
    hide SetAccess, DropAccess, DropRequest, CheckPermission, KnownUser, Grant;
    if s.RemAccess? { NothingDropped(f.acl, s.target); }
  }
}
