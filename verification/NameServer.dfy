/** The name server's heap: the file list, the hash index over it and the LRU cache in front, changed in place
    by each request while it holds the data mutex. */
module NameServer {
  import opened Text
  import opened Recency
  import M = Metadata
  import H = HashTable
  import L = LruCache

  class FileMetadata {
    const filename: string
    const owner: string
    const isDirectory: bool
    const ss: M.Server
    var accessList: seq<M.Access>
    var pendingRequests: seq<string>
    var annotation: string

    constructor (filename: string, owner: string, isDirectory: bool, ss: M.Server, accessList: seq<M.Access>)
      ensures Rec() == M.FileRec(filename, owner, isDirectory, ss, accessList, [], "")
      ensures this.filename == filename
    {
      this.filename, this.owner, this.isDirectory, this.ss := filename, owner, isDirectory, ss;
      this.accessList, pendingRequests, annotation := accessList, [], "";
    }

    ghost function Rec(): (r: M.FileRec)
      reads this
      ensures r.name == filename
    {
      M.FileRec(filename, owner, isDirectory, ss, accessList, pendingRequests, annotation)
    }

    /** check_permission. */
    method CheckPermission(user: string, perm: char) returns (ok: bool)
      ensures ok == M.CheckPermission(Rec(), user, perm)
    {
      if owner == user { return true; }
      var i := 0;
      while i < |accessList|
        invariant 0 <= i <= |accessList|
        invariant forall j :: 0 <= j < i ==>
          !(accessList[j].user == user && (accessList[j].perm == 'W' || accessList[j].perm == perm))
      {
        if accessList[i].user == user {
          if accessList[i].perm == 'W' || accessList[i].perm == perm {
            assert accessList[i] in Rec().acl;
            return true;
          }
        }
        i := i + 1;
      }
      ok := false;
    }

    /** The loop that looks for a user in the access list. */
    method FindAccess(user: string) returns (i: nat)
      ensures i <= |accessList| && (forall j :: 0 <= j < i ==> accessList[j].user != user)
      ensures i < |accessList| ==> accessList[i].user == user
    {
      i := 0;
      while i < |accessList|
        invariant 0 <= i <= |accessList| && forall j :: 0 <= j < i ==> accessList[j].user != user
      {
        if accessList[i].user == user { return; }
        i := i + 1;
      }
    }

    /** handle_add_access, step 5. */
    method SetAccess(user: string, perm: char)
      modifies this`accessList
      ensures accessList == M.SetAccess(old(accessList), user, perm)
    {
      var i := FindAccess(user);
      FirstEntry(accessList, user, perm, i);
      if i < |accessList| {
        accessList := accessList[i := M.Access(user, perm)];
      } else {
        accessList := [M.Access(user, perm)] + accessList;
      }
    }

    /** handle_rem_access, step 3. */
    method DropAccess(user: string) returns (found: bool)
      modifies this`accessList
      ensures accessList == M.DropAccess(old(accessList), user)
      ensures found <==> M.Grant(old(accessList), user).Some?
    {
      var i := FindAccess(user);
      FirstEntry(accessList, user, 'R', i);
      found := i < |accessList|;
      if found {
        accessList := accessList[..i] + accessList[i + 1..];
      }
    }

    /** handle_approve_req: read access for a user not yet listed. */
    method ApproveAccess(user: string)
      modifies this`accessList
      ensures accessList
        == if M.Grant(old(accessList), user).None? then [M.Access(user, 'R')] + old(accessList) else old(accessList)
    {
      var i := FindAccess(user);
      FirstEntry(accessList, user, 'R', i);
      if i == |accessList| {
        accessList := [M.Access(user, 'R')] + accessList;
      }
    }

    /** handle_req_access: a request not yet pending. */
    method AddRequest(user: string) returns (added: bool)
      modifies this`pendingRequests
      ensures added <==> user !in old(pendingRequests)
      ensures pendingRequests == if added then [user] + old(pendingRequests) else old(pendingRequests)
    {
      var i := 0;
      while i < |pendingRequests|
        invariant 0 <= i <= |pendingRequests| && pendingRequests == old(pendingRequests)
        invariant forall j :: 0 <= j < i ==> pendingRequests[j] != user
      {
        if pendingRequests[i] == user { return false; }
        i := i + 1;
      }
      pendingRequests := [user] + pendingRequests;
      added := true;
    }

    /** remove_request. */
    method DropRequest(user: string)
      modifies this`pendingRequests
      ensures pendingRequests == M.DropRequest(old(pendingRequests), user)
    {
      var i := 0;
      while i < |pendingRequests|
        invariant 0 <= i <= |pendingRequests| && pendingRequests == old(pendingRequests)
        invariant forall j :: 0 <= j < i ==> pendingRequests[j] != user
      {
        if pendingRequests[i] == user { break; }
        i := i + 1;
      }
      FirstRequest(pendingRequests, user, i);
      if i < |pendingRequests| {
        pendingRequests := pendingRequests[..i] + pendingRequests[i + 1..];
      }
    }

    // ---- What the handlers do with a file they found ----

    method AddAccess(ghost st: M.State, name: string, target: string, perm: char, actor: string, known: bool)
      returns (reply: M.Reply)
      requires known == M.KnownUser(st.users, target)
      modifies this`accessList
      ensures Rec() == M.Change(st, old(Rec()), M.AddAccess(name, target, perm, actor))
      ensures reply == M.ReplyFor(st, old(Rec()), M.AddAccess(name, target, perm, actor))
    {
      if owner != actor { return M.Denied; }
      if !known { return M.UserUnknown; }
      if perm != 'R' && perm != 'W' { return M.BadInput; }
      SetAccess(target, perm);
      reply := M.Done;
    }

    method RemAccess(ghost st: M.State, name: string, target: string, actor: string) returns (reply: M.Reply)
      modifies this`accessList
      ensures Rec() == M.Change(st, old(Rec()), M.RemAccess(name, target, actor))
      ensures reply == M.ReplyFor(st, old(Rec()), M.RemAccess(name, target, actor))
    {
      if owner != actor { return M.Denied; }
      var found := DropAccess(target);
      reply := if found then M.Done else M.NoEntry;
    }

    method ReqAccess(ghost st: M.State, name: string, actor: string) returns (reply: M.Reply)
      modifies this`pendingRequests
      ensures Rec() == M.Change(st, old(Rec()), M.RequestAccess(name, actor))
      ensures reply == M.ReplyFor(st, old(Rec()), M.RequestAccess(name, actor))
    {
      var allowed := CheckPermission(actor, 'R');
      if allowed { return M.HasAccess; }
      var added := AddRequest(actor);
      reply := if added then M.Done else M.AlreadyAsked;
    }

    method ApproveReq(ghost st: M.State, name: string, target: string, actor: string) returns (reply: M.Reply)
      modifies this`accessList, this`pendingRequests
      ensures Rec() == M.Change(st, old(Rec()), M.Approve(name, target, actor))
      ensures reply == M.ReplyFor(st, old(Rec()), M.Approve(name, target, actor))
    {
      if owner != actor { return M.Denied; }
      ApproveAccess(target);
      DropRequest(target);
      reply := M.Done;
    }

    method RejectReq(ghost st: M.State, name: string, target: string, actor: string) returns (reply: M.Reply)
      modifies this`pendingRequests
      ensures Rec() == M.Change(st, old(Rec()), M.Reject(name, target, actor))
      ensures reply == M.ReplyFor(st, old(Rec()), M.Reject(name, target, actor))
    {
      if owner != actor { return M.Denied; }
      DropRequest(target);
      reply := M.Done;
    }

    method Annotate(ghost st: M.State, name: string, note: string, actor: string) returns (reply: M.Reply)
      modifies this`annotation
      ensures Rec() == M.Change(st, old(Rec()), M.Annotate(name, note, actor))
      ensures reply == M.ReplyFor(st, old(Rec()), M.Annotate(name, note, actor))
    {
      var allowed := CheckPermission(actor, 'W');
      if !allowed { return M.Denied; }
      annotation := if |note| > 255 then note[..255] else note;
      reply := M.Done;
    }
  }

  lemma {:induction false} FirstRequest(pending: seq<string>, user: string, i: nat)
    requires i <= |pending| && (forall j :: 0 <= j < i ==> pending[j] != user) && (i < |pending| ==> pending[i] == user)
    ensures M.DropRequest(pending, user) == if i < |pending| then pending[..i] + pending[i + 1..] else pending
    decreases i
  {
    if i > 0 {
      FirstRequest(pending[1..], user, i - 1);
      if i < |pending| { CutTail(pending, i); }
    }
  }

  lemma CutTail<T>(s: seq<T>, i: nat)
    requires 0 < i < |s|
    ensures s[..i] + s[i + 1..] == [s[0]] + (s[1..][..i - 1] + s[1..][i..])
  {
  }

  lemma FirstEntry(acl: seq<M.Access>, user: string, perm: char, i: nat)
    requires i <= |acl| && (forall j :: 0 <= j < i ==> acl[j].user != user) && (i < |acl| ==> acl[i].user == user)
    ensures if i < |acl|
      then M.Grant(acl, user).Some? && M.ChangeAccess(acl, user, perm) == acl[i := M.Access(user, perm)]
           && M.DropAccess(acl, user) == acl[..i] + acl[i + 1..]
      else M.Grant(acl, user).None? && M.DropAccess(acl, user) == acl
  {
    if i < |acl| {
      FirstChange(acl, user, perm, i);
      FirstDrop(acl, user, i);
    } else {
      NoEntry(acl, user);
    }
  }

  lemma {:induction false} FirstChange(acl: seq<M.Access>, user: string, perm: char, i: nat)
    requires i < |acl| && (forall j :: 0 <= j < i ==> acl[j].user != user) && acl[i].user == user
    ensures M.Grant(acl, user).Some? && M.ChangeAccess(acl, user, perm) == acl[i := M.Access(user, perm)]
    decreases i
  {
    if i > 0 { FirstChange(acl[1..], user, perm, i - 1); }
  }

  lemma {:induction false} FirstDrop(acl: seq<M.Access>, user: string, i: nat)
    requires i < |acl| && (forall j :: 0 <= j < i ==> acl[j].user != user) && acl[i].user == user
    ensures M.DropAccess(acl, user) == acl[..i] + acl[i + 1..]
    decreases i
  {
    if i > 0 {
      FirstDrop(acl[1..], user, i - 1);
      CutTail(acl, i);
    }
  }

  lemma {:induction false} NoEntry(acl: seq<M.Access>, user: string)
    requires forall j :: 0 <= j < |acl| ==> acl[j].user != user
    ensures M.Grant(acl, user).None? && M.DropAccess(acl, user) == acl
  {
    if acl != [] { NoEntry(acl[1..], user); }
  }

  ghost function Recs(files: seq<FileMetadata>): (r: seq<M.FileRec>)
    reads files
    ensures |r| == |files| && forall i :: 0 <= i < |r| ==> r[i] == files[i].Rec()
  {
    seq(|files|, i requires 0 <= i < |files| reads files => files[i].Rec())
  }

  ghost predicate DistinctNames(files: seq<FileMetadata>) {
    forall i, j :: 0 <= i < j < |files| ==> files[i].filename != files[j].filename
  }

  /** The files called k, in list order. */
  ghost function Named(files: seq<FileMetadata>, k: string): seq<FileMetadata> {
    if files == [] then [] else (if files[0].filename == k then [files[0]] else []) + Named(files[1..], k)
  }

  lemma NamedCons(file: FileMetadata, files: seq<FileMetadata>, k: string)
    ensures Named([file] + files, k) == if file.filename == k then [file] + Named(files, k) else Named(files, k)
  {
    assert ([file] + files)[1..] == files;
    assert [] + Named(files, k) == Named(files, k);
  }

  lemma {:induction false} NamedFacts(files: seq<FileMetadata>, k: string)
    ensures Named(files, k) == [] <==> forall i :: 0 <= i < |files| ==> files[i].filename != k
    ensures Named(files, k) != [] ==> Named(files, k)[0] in files && Named(files, k)[0].filename == k
  {
    hide Named;
    if files == [] {
      NoneNamed(k);
    } else {
      var f, rest := files[0], files[1..];
      NamedFacts(rest, k);
      NamedCons(f, rest, k);
      assert files == [f] + rest;
      assert f.filename != k ==> forall i :: 0 < i < |files| ==> files[i] == rest[i - 1];
    }
  }

  lemma EmptyOrFirst<T>(s: seq<T>)
    ensures s == [] || s[0] in s
  {
  }

  lemma NewName(file: FileMetadata, files: seq<FileMetadata>)
    requires DistinctNames(files) && forall i :: 0 <= i < |files| ==> files[i].filename != file.filename
    ensures DistinctNames([file] + files)
  {
  }

  lemma NoneNamed(k: string)
    ensures Named([], k) == []
  {
  }

  lemma {:induction false} NamedAt(files: seq<FileMetadata>, i: nat)
    requires DistinctNames(files) && i < |files|
    ensures Named(files, files[i].filename) == [files[i]]
  {
    hide Named;
    var k, rest := files[i].filename, files[1..];
    NamedCons(files[0], rest, k);
    assert files == [files[0]] + rest;
    if i == 0 { NamedFacts(rest, k); } else { NamedAt(rest, i - 1); }
  }

  class Server {
    var files: seq<FileMetadata>
    var servers: seq<M.Server>
    var users: seq<M.User>
    const table: H.Table<FileMetadata>
    const cache: L.Cache<FileMetadata>

    /** The hash table maps each name to its file in the list s, and nothing else. */
    ghost predicate Indexed(s: seq<FileMetadata>)
      reads table, table.Repr
    {
      && table.Valid()
      && (forall i :: 0 <= i < |s| ==> table.Stack(s[i].filename) == [s[i]])
      && (forall k :: table.Stack(k) != [] ==> table.Stack(k)[0] in s && table.Stack(k)[0].filename == k)
    }

    ghost predicate Apart()
      reads `files, table, cache, cache.lookup
    {
      && table in table.Repr && this !in table.Repr && this !in cache.lookup.Repr
      && cache !in table.Repr && cache.lookup !in table.Repr
      && table.Repr !! cache.lookup.Repr
      && (forall n :: n in cache.nodes ==> n !in table.Repr)
      && (forall f :: f in files ==> f !in table.Repr && f !in cache.lookup.Repr)
    }

    /** Every cached entry is the file the index has under that name. */
    ghost predicate Coherent()
      reads `files, cache
    {
      forall n :: n in cache.nodes ==> n.value in files && n.value.filename == n.key
    }

    /** Everything but the agreement of the cache. */
    ghost predicate Sound()
      reads this, table, table.Repr, cache, cache.lookup, cache.lookup.Repr, cache.nodes
    {
      DistinctNames(files) && Indexed(files) && cache.Valid() && Apart()
    }

    /** The hash table holds under each name the files so called, in list order: also when names repeat. */
    ghost predicate Listed()
      reads this, table, table.Repr, cache, cache.lookup, cache.lookup.Repr, cache.nodes
    {
      table.Valid() && cache.Valid() && Apart() && forall k :: table.Stack(k) == Named(files, k)
    }

    ghost predicate Valid()
      reads this, table, table.Repr, cache, cache.lookup, cache.lookup.Repr, cache.nodes
    {
      Sound() && Coherent()
    }

    ghost function Footprint(): set<object>
      reads this, table, cache, cache.lookup
    {
      {this, cache} + (set n | n in cache.nodes) + cache.lookup.Repr + table.Repr
    }

    ghost function State(): M.State
      reads this, cache, files
    {
      M.State(Recs(files), servers, users, L.Keys(cache.nodes))
    }

    constructor ()
      ensures Valid() && fresh(table.Repr) && fresh(cache) && fresh(cache.lookup.Repr)
      ensures State() == M.State([], [], [], []) && files == [] && fresh(Footprint())
    {
      hide table.Valid, table.Stack, cache.Valid;
      files, servers, users := [], [], [];
      table := new H.Table();
      cache := new L.Cache();
    }

    /** find_file: the cache, then the hash table, which feeds the cache. */
    method FindFile(name: string) returns (file: Option<FileMetadata>)
      requires Sound()
      modifies cache, cache.nodes, cache.lookup.Repr
      ensures Sound() && fresh(Footprint() - old(Footprint())) && table.Repr == old(table.Repr)
      ensures unchanged(this) && forall f :: f in files ==> f.Rec() == old(f.Rec())
      ensures forall f :: f in files ==> f !in table.Repr && f !in cache.lookup.Repr
      ensures forall n :: n in cache.nodes && n !in old(cache.nodes) ==>
        fresh(n) && n.value in files && n.value.filename == n.key
      ensures L.Keys(cache.nodes)
        == if file.Some? then Touch(old(L.Keys(cache.nodes)), name, CACHE_SIZE) else old(L.Keys(cache.nodes))
      ensures name !in old(L.Keys(cache.nodes)) ==>
        file == if table.Stack(name) == [] then None else Some(table.Stack(name)[0])
      ensures name in old(L.Keys(cache.nodes)) ==>
        file.Some? && exists n :: n in old(cache.nodes) && n.key == name && n.value == file.value
    {
      hide cache.Valid, table.Valid, table.Stack, Recs, L.Keys, Touch, DistinctNames, Indexed;
      StackIn(name);
      file := cache.Get(name);
      if file.Some? { return; }
      file := table.Search(name);
      if file.Some? {
        cache.Put(name, file.value);
      }
    }

    lemma StackIn(name: string)
      requires Indexed(files)
      ensures table.Valid() && table in table.Repr
      ensures table.Stack(name) != [] ==> table.Stack(name)[0] in files && table.Stack(name)[0].filename == name
    {
      hide table.Valid, table.Stack;
    }

    /** The index answers as a scan of the file list would. */
    lemma IndexFinds(name: string)
      requires DistinctNames(files) && Indexed(files)
      ensures table.Stack(name) == [] <==> M.Find(Recs(files), name).None?
      ensures table.Stack(name) != [] ==> table.Stack(name)[0] in files && table.Stack(name)[0].filename == name
    {
      hide table.Valid, table.Stack, DistinctNames, M.Find;
      M.FindFacts(Recs(files), name);
      forall r | r in Recs(files) && r.name == name ensures table.Stack(name) != [] {
        var i :| 0 <= i < |files| && Recs(files)[i] == r;
        assert table.Stack(files[i].filename) == [files[i]];
      }
      if table.Stack(name) != [] {
        var i :| 0 <= i < |files| && files[i] == table.Stack(name)[0];
        assert Recs(files)[i] in Recs(files) && Recs(files)[i].name == name;
      }
    }

    /** With distinct names that is the index. */
    lemma ListedIsIndexed()
      requires DistinctNames(files)
      ensures Indexed(files) <==> table.Valid() && forall k :: table.Stack(k) == Named(files, k)
    {
      hide table.Valid, table.Stack, Named;
      if Indexed(files) {
        forall k ensures table.Stack(k) == Named(files, k) {
          NamedFacts(files, k);
          if i :| 0 <= i < |files| && files[i].filename == k { NamedAt(files, i); }
        }
      }
      if table.Valid() && forall k :: table.Stack(k) == Named(files, k) {
        forall i | 0 <= i < |files| ensures table.Stack(files[i].filename) == [files[i]] {
          NamedAt(files, i);
        }
        forall k ensures table.Stack(k) != [] ==> table.Stack(k)[0] in files && table.Stack(k)[0].filename == k {
          NamedFacts(files, k);
          assert table.Stack(k) == Named(files, k);
        }
      }
    }

    lemma FileIndexed(i: nat)
      requires DistinctNames(files) && Indexed(files) && i < |files|
      ensures table.Stack(files[i].filename) == [files[i]]
      ensures forall j :: 0 <= j < |files| && j != i ==> files[j] != files[i]
    {
      hide table.Valid, table.Stack;
    }

    /** Cache transparency: while the cache agrees with the index, find_file returns what the index alone would,
        and keeps the agreement. */
    method Open(name: string) returns (file: Option<FileMetadata>, ghost i: nat)
      requires Valid()
      modifies cache, cache.nodes, cache.lookup.Repr
      ensures Valid() && fresh(Footprint() - old(Footprint()))
      ensures unchanged(this) && forall f :: f in files ==> f.Rec() == old(f.Rec())
      ensures file == if table.Stack(name) == [] then None else Some(table.Stack(name)[0])
      ensures file.Some? ==> i < |files| && file.value == files[i] && file.value.filename == name
      ensures file.Some? ==> forall j :: 0 <= j < |files| && j != i ==> files[j] != file.value
      ensures file.Some? ==> file.value !in table.Repr && file.value !in cache.lookup.Repr
      ensures file.Some? <==> M.Find(old(State()).files, name).Some?
      ensures State() == if file.Some? then M.Seen(old(State()), name) else old(State())
    {
      hide cache.Valid, table.Valid, table.Stack, Recs, L.Keys, Touch, M.Find, Apart, DistinctNames, Indexed;
      i := 0;
      file := FindFile(name);
      assert Recs(files) == old(Recs(files));
      IndexFinds(name);
      if file.Some? {
        i :| 0 <= i < |files| && files[i] == file.value;
        FileIndexed(i);
      }
    }

    // ---- Requests on one file ----

    /** Changing the one file called s.name as s asks is the step s. */
    lemma OneFileChanged(before: M.State, i: nat, s: M.Step)
      requires M.OnOneFile(s) && i < |files| && files[i].filename == s.name && Valid()
      requires |before.files| == |files|
      requires forall j :: 0 <= j < |files| && j != i ==> files[j].Rec() == before.files[j]
      requires before.files[i].name == s.name && files[i].Rec() == M.Change(before, before.files[i], s)
      requires M.Find(before.files, s.name).Some?
      requires State() == M.Seen(before, s.name).(files := Recs(files))
      ensures State() == M.Do(before, s)
    {
      hide M.Change, M.Find, Touch, Indexed, Coherent, Apart, cache.Valid;
      assert forall j :: 0 <= j < |files| ==> before.files[j].name == files[j].filename;
      assert Recs(files) == M.Alter(before, s);
    }

    /** What the request s will be answered, when it found the file. */
    lemma FoundAnswer(i: nat, before: M.State, s: M.Step)
      requires M.OnOneFile(s) && i < |files| && files[i].filename == s.name && Valid() && before.files == State().files
      ensures M.Answer(before, s) == M.ReplyFor(before, files[i].Rec(), s)
    {
      hide Indexed, Coherent, Apart, cache.Valid, M.Find, M.ReplyFor;
      FoundOwner(i, before);
    }

    /** find_user. */
    method FindUser(name: string) returns (found: bool)
      ensures found == M.KnownUser(users, name)
    {
      var i := 0;
      while i < |users|
        invariant 0 <= i <= |users| && forall j :: 0 <= j < i ==> users[j].name != name
      {
        if users[i].name == name { assert users[i] in users; return true; }
        i := i + 1;
      }
      found := false;
    }

    /** The lookup of a request that changes no file. */
    method HandleLookup(name: string) returns (reply: M.Reply)
      requires Valid()
      modifies cache, cache.nodes, cache.lookup.Repr
      ensures files == old(files) && fresh(Footprint() - old(Footprint()))
      ensures Valid() && State() == M.Do(old(State()), M.Lookup(name))
      ensures reply == M.Answer(old(State()), M.Lookup(name))
    {
      hide Valid, State, table.Stack, M.Find, M.Do, M.Seen;
      ghost var before := State();
      var file, i := Open(name);
      if file.Some? { LookupChangesNothing(before, name); } else { NotFound(before, M.Lookup(name)); }
      reply := if file.Some? then M.Done else M.NotFound;
    }

    /** The check shared by READ, WRITE, STREAM, UNDO, CHECKPOINT and REVERT: the client is sent to the file's storage
        server exactly when the file exists and its owner or access list gives the user the right. */
    method HandleRedirect(name: string, user: string, perm: char) returns (target: Option<M.Server>)
      requires Valid()
      modifies cache, cache.nodes, cache.lookup.Repr
      ensures files == old(files) && fresh(Footprint() - old(Footprint()))
      ensures Valid() && State() == M.Do(old(State()), M.Lookup(name))
      ensures var f := M.Find(old(State()).files, name);
        target == if f.Some? && M.CheckPermission(f.value, user, perm) then Some(f.value.server) else None
    {
      hide Valid, M.Find, M.Do, M.CheckPermission, Touch, table.Stack, table.Valid, cache.Valid, L.Keys;
      ghost var before := State();
      var file, i := Open(name);
      target := None;
      if file.Some? {
        LookupChangesNothing(before, name);
        FoundOwner(i, before);
        var allowed := file.value.CheckPermission(user, perm);
        if allowed { target := Some(file.value.ss); }
      } else {
        NotFound(before, M.Lookup(name));
      }
    }

    method HandleAddAccess(name: string, target: string, perm: char, actor: string) returns (reply: M.Reply)
      requires Valid()
      modifies cache, cache.nodes, cache.lookup.Repr, files
      ensures files == old(files) && fresh(Footprint() - old(Footprint()))
      ensures Valid() && State() == M.Do(old(State()), M.AddAccess(name, target, perm, actor))
      ensures reply == M.Answer(old(State()), M.AddAccess(name, target, perm, actor))
    {
      hide Valid, table.Stack, L.Keys, Touch, M.Find, M.Do, M.Answer, M.Change, M.ReplyFor, M.KnownUser;
      ghost var before, s := State(), M.AddAccess(name, target, perm, actor);
      var known := FindUser(target);
      var file, i := Open(name);
      if file.None? { NotFound(before, s); return M.NotFound; }
      FoundAnswer(i, before, s);
      reply := file.value.AddAccess(before, name, target, perm, actor, known);
      OneFileChanged(before, i, s);
    }

    method HandleRemAccess(name: string, target: string, actor: string) returns (reply: M.Reply)
      requires Valid()
      modifies cache, cache.nodes, cache.lookup.Repr, files
      ensures files == old(files) && fresh(Footprint() - old(Footprint()))
      ensures Valid() && State() == M.Do(old(State()), M.RemAccess(name, target, actor))
      ensures reply == M.Answer(old(State()), M.RemAccess(name, target, actor))
    {
      hide Valid, table.Stack, L.Keys, Touch, M.Find, M.Do, M.Answer, M.Change, M.ReplyFor, M.KnownUser;
      ghost var before, s := State(), M.RemAccess(name, target, actor);
      var file, i := Open(name);
      if file.None? { NotFound(before, s); return M.NotFound; }
      FoundAnswer(i, before, s);
      reply := file.value.RemAccess(before, name, target, actor);
      OneFileChanged(before, i, s);
    }

    method HandleReqAccess(name: string, actor: string) returns (reply: M.Reply)
      requires Valid()
      modifies cache, cache.nodes, cache.lookup.Repr, files
      ensures files == old(files) && fresh(Footprint() - old(Footprint()))
      ensures Valid() && State() == M.Do(old(State()), M.RequestAccess(name, actor))
      ensures reply == M.Answer(old(State()), M.RequestAccess(name, actor))
    {
      hide Valid, table.Stack, L.Keys, Touch, M.Find, M.Do, M.Answer, M.Change, M.ReplyFor, M.KnownUser;
      ghost var before, s := State(), M.RequestAccess(name, actor);
      var file, i := Open(name);
      if file.None? { NotFound(before, s); return M.NotFound; }
      FoundAnswer(i, before, s);
      reply := file.value.ReqAccess(before, name, actor);
      OneFileChanged(before, i, s);
    }

    method HandleApproveReq(name: string, target: string, actor: string) returns (reply: M.Reply)
      requires Valid()
      modifies cache, cache.nodes, cache.lookup.Repr, files
      ensures files == old(files) && fresh(Footprint() - old(Footprint()))
      ensures Valid() && State() == M.Do(old(State()), M.Approve(name, target, actor))
      ensures reply == M.Answer(old(State()), M.Approve(name, target, actor))
    {
      hide Valid, table.Stack, L.Keys, Touch, M.Find, M.Do, M.Answer, M.Change, M.ReplyFor, M.KnownUser;
      ghost var before, s := State(), M.Approve(name, target, actor);
      var file, i := Open(name);
      if file.None? { NotFound(before, s); return M.NotFound; }
      FoundAnswer(i, before, s);
      reply := file.value.ApproveReq(before, name, target, actor);
      OneFileChanged(before, i, s);
    }

    method HandleRejectReq(name: string, target: string, actor: string) returns (reply: M.Reply)
      requires Valid()
      modifies cache, cache.nodes, cache.lookup.Repr, files
      ensures files == old(files) && fresh(Footprint() - old(Footprint()))
      ensures Valid() && State() == M.Do(old(State()), M.Reject(name, target, actor))
      ensures reply == M.Answer(old(State()), M.Reject(name, target, actor))
    {
      hide Valid, table.Stack, L.Keys, Touch, M.Find, M.Do, M.Answer, M.Change, M.ReplyFor, M.KnownUser;
      ghost var before, s := State(), M.Reject(name, target, actor);
      var file, i := Open(name);
      if file.None? { NotFound(before, s); return M.NotFound; }
      FoundAnswer(i, before, s);
      reply := file.value.RejectReq(before, name, target, actor);
      OneFileChanged(before, i, s);
    }

    method HandleAnnotate(name: string, note: string, actor: string) returns (reply: M.Reply)
      requires Valid()
      modifies cache, cache.nodes, cache.lookup.Repr, files
      ensures files == old(files) && fresh(Footprint() - old(Footprint()))
      ensures Valid() && State() == M.Do(old(State()), M.Annotate(name, note, actor))
      ensures reply == M.Answer(old(State()), M.Annotate(name, note, actor))
    {
      hide Valid, table.Stack, L.Keys, Touch, M.Find, M.Do, M.Answer, M.Change, M.ReplyFor, M.KnownUser;
      ghost var before, s := State(), M.Annotate(name, note, actor);
      var file, i := Open(name);
      if file.None? { NotFound(before, s); return M.NotFound; }
      FoundAnswer(i, before, s);
      reply := file.value.Annotate(before, name, note, actor);
      OneFileChanged(before, i, s);
    }

    // ---- Requests on the whole list ----

    /** A new file goes to the head of the list and into the index. */
    method PushFile(file: FileMetadata)
      requires Listed() && file !in Footprint()
      modifies this`files, table.Repr
      ensures Listed() && files == [file] + old(files) && fresh(table.Repr - old(table.Repr))
      ensures cache.nodes == old(cache.nodes) && cache.lookup.Repr == old(cache.lookup.Repr)
    {
      hide cache.Valid, table.Valid, table.Stack, Recs, L.Keys, Named;
      forall k
        ensures Named([file] + files, k) == if file.filename == k then [file] + Named(files, k) else Named(files, k)
      {
        NamedCons(file, files, k);
      }
      files := [file] + files;
      table.Insert(file.filename, file);
    }

    method PushRecord(file: FileMetadata)
      requires Listed() && file !in Footprint()
      modifies this`files, table.Repr
      ensures Listed() && fresh(Footprint() - old(Footprint())) && cache.nodes == old(cache.nodes)
      ensures files == [file] + old(files)
      ensures State() == old(State()).(files := [old(file.Rec())] + old(State()).files)
    {
      hide cache.Valid, table.Valid, table.Stack, Recs, L.Keys, Named;
      RecsPushed(file, files);
      PushFile(file);
      assert Recs(files) == old(Recs([file] + files));
    }

    /** A name new to the list keeps the names distinct. */
    method AddFile(file: FileMetadata)
      requires Valid() && file !in Footprint() && table.Stack(file.filename) == []
      modifies this`files, table.Repr
      ensures Valid() && fresh(Footprint() - old(Footprint()))
      ensures State() == old(State()).(files := [old(file.Rec())] + old(State()).files)
      ensures files == [file] + old(files)
    {
      hide cache.Valid, table.Valid, table.Stack, State, Indexed, Named, Apart, DistinctNames;
      ListedIsIndexed();
      NamedFacts(files, file.filename);
      assert table.Stack(file.filename) == Named(files, file.filename);
      NewName(file, files);
      PushRecord(file);
      ListedIsIndexed();
    }

    method HandleCreate(name: string, actor: string) returns (reply: M.Reply)
      requires Valid()
      modifies Footprint()
      ensures Valid() && State() == M.Do(old(State()), M.Create(name, actor)) && fresh(Footprint() - old(Footprint()))
      ensures reply == M.Answer(old(State()), M.Create(name, actor))
      ensures forall f :: f in files ==> f in old(files) || fresh(f)
    {
      hide Valid, table.Stack, table.Valid, cache.Valid, L.Keys, Touch, M.Find, Recs;
      var file, i := Open(name);
      if file.Some? { return M.AlreadyExists; }
      if servers == [] { return M.NoServer; }
      AddNew(name, actor, false, servers[0], [M.Access(actor, 'W')]);
      reply := M.Done;
    }

    method HandleCreateFolder(name: string, actor: string) returns (reply: M.Reply)
      requires Valid()
      modifies Footprint()
      ensures Valid() && State() == M.Do(old(State()), M.CreateFolder(name, actor))
      ensures fresh(Footprint() - old(Footprint()))
      ensures reply == M.Answer(old(State()), M.CreateFolder(name, actor))
      ensures forall f :: f in files ==> f in old(files) || fresh(f)
    {
      hide Valid, table.Stack, table.Valid, cache.Valid, L.Keys, Touch, M.Find, Recs;
      var file, i := Open(name);
      if file.Some? { return M.AlreadyExists; }
      if servers == [] { return M.Crash; }
      AddNew(name, actor, true, servers[0], [M.Access(actor, 'W')]);
      reply := M.Done;
    }

    method AddNew(name: string, owner: string, isDirectory: bool, ss: M.Server, acl: seq<M.Access>)
      requires Valid() && table.Stack(name) == []
      modifies this`files, table.Repr
      ensures Valid() && fresh(Footprint() - old(Footprint()))
      ensures State()
        == old(State()).(files := [M.FileRec(name, owner, isDirectory, ss, acl, [], "")] + old(State()).files)
      ensures forall f :: f in files ==> f in old(files) || fresh(f)
    {
      hide Valid, State, Recs, table.Stack, table.Valid, cache.Valid, M.Find;
      var file := new FileMetadata(name, owner, isDirectory, ss, acl);
      AddFile(file);
    }

    /** What load_metadata does with the files it has read: each goes to the head of the list and into the index. All is
        in agreement exactly when no name was read twice. */
    method Restore(loaded: seq<M.FileRec>)
      requires Valid() && State().files == []
      requires forall f :: f in loaded ==> f.pending == []
      modifies Footprint()
      ensures Listed() && State() == old(State()).(files := loaded)
      ensures Valid() <==> M.NamesDistinct(loaded)
    {
      hide Listed, State, table.Stack, table.Valid, cache.Valid, M.NamesDistinct;
      var i := |loaded|;
      assert loaded[i..] == [];
      NothingListed();
      while i > 0
        invariant 0 <= i <= |loaded| && Listed() && fresh(Footprint() - old(Footprint())) && cache.nodes == []
        invariant State() == old(State()).(files := loaded[i..])
      {
        assert [loaded[i - 1]] + loaded[i..] == loaded[i - 1..];
        AddLoaded(loaded[i - 1]);
        i := i - 1;
      }
      assert loaded[0..] == loaded;
      ValidWhenDistinct(loaded);
    }

    lemma NothingListed()
      requires Valid() && State().files == []
      ensures Listed() && cache.nodes == []
    {
      hide table.Stack, table.Valid, cache.Valid;
      ListedIsIndexed();
      assert |files| == |State().files|;
      EmptyOrFirst(cache.nodes);
    }

    lemma ValidWhenDistinct(loaded: seq<M.FileRec>)
      requires Listed() && cache.nodes == [] && State().files == loaded
      ensures Valid() <==> M.NamesDistinct(loaded)
    {
      hide table.Stack, table.Valid, cache.Valid, Indexed, Named, Apart;
      assert DistinctNames(files) <==> M.NamesDistinct(loaded);
      if DistinctNames(files) { ListedIsIndexed(); }
    }

    method AddLoaded(f: M.FileRec)
      requires Listed() && f.pending == []
      modifies this`files, table.Repr
      ensures Listed() && fresh(Footprint() - old(Footprint())) && cache.nodes == old(cache.nodes)
      ensures State() == old(State()).(files := [f] + old(State()).files)
    {
      hide Listed, State, table.Stack, table.Valid, cache.Valid;
      var file := new FileMetadata(f.name, f.owner, f.isDirectory, f.server, f.acl);
      file.annotation := f.note;
      PushRecord(file);
    }

    /** One name of a registering storage server's file list. */
    method RegisterName(name: string, ss: M.Server)
      requires Valid()
      modifies Footprint()
      ensures Valid() && State() == M.RegisterName(old(State()), ss, name) && fresh(Footprint() - old(Footprint()))
      ensures forall f :: f in files ==> f in old(files) || fresh(f)
    {
      hide Valid, table.Stack, table.Valid, cache.Valid, L.Keys, Touch, M.Find, Recs;
      var file, i := Open(name);
      if file.None? {
        AddNew(name, "ss_owner", false, ss, []);
      }
    }

    /** register_storage_server: the names are separated by commas and may repeat. */
    method RegisterStorageServer(server: M.Server, fileList: string)
      requires Valid()
      modifies Footprint()
      ensures Valid() && fresh(Footprint() - old(Footprint()))
      ensures State() == M.Do(old(State()), M.RegisterServer(server, Tokens(fileList, {','})))
      ensures forall f :: f in files ==> f in old(files) || fresh(f)
    {
      hide Valid, table.Stack, table.Valid, cache.Valid, L.Keys, Recs, M.RegisterNames, Tokens;
      var known := KnownServer(server);
      if known { return; }
      PushServer(server);
      RegisterList(server, fileList);
    }

    method RegisterList(server: M.Server, fileList: string)
      requires Valid()
      modifies Footprint()
      ensures Valid() && fresh(Footprint() - old(Footprint()))
      ensures State() == M.RegisterNames(old(State()), server, Tokens(fileList, {','}))
      ensures forall f :: f in files ==> f in old(files) || fresh(f)
    {
      hide Valid, State, table.Stack, table.Valid, cache.Valid, L.Keys, M.RegisterName, M.RegisterNames, Token,
        AfterToken, Tokens;
      ghost var goal := M.RegisterNames(State(), server, Tokens(fileList, {','}));
      var scan := new Strtok();
      assert scan !in Footprint();
      var name := scan.Start(fileList, {','});
      ghost var left := fileList;
      while name.Some?
        invariant Valid() && fresh(Footprint() - old(Footprint())) && fresh(scan) && scan !in Footprint()
        invariant name == Token(left, {','}) && scan.rest == AfterToken(left, {','})
        invariant M.RegisterNames(State(), server, Tokens(left, {','})) == goal
        invariant forall f :: f in files ==> f in old(files) || fresh(f)
        decreases |left|
      {
        NextRegistered(State(), server, left);
        RegisterName(name.value, server);
        left := scan.rest;
        name := NextName(scan);
      }
      LastRegistered(State(), server, left);
    }

    /** strtok(NULL, ",") leaves the server's own structures alone. */
    method NextName(scan: Strtok) returns (name: Option<string>)
      requires Valid() && scan !in Footprint()
      modifies scan
      ensures files == old(files)
      ensures Valid() && State() == old(State()) && Footprint() == old(Footprint())
      ensures name == Token(old(scan.rest), {','}) && scan.rest == AfterToken(old(scan.rest), {','})
    {
      hide table.Stack, table.Valid, cache.Valid, L.Keys, Token, AfterToken;
      name := scan.Next({','});
      assert Recs(files) == old(Recs(files));
    }

    method KnownServer(server: M.Server) returns (known: bool)
      ensures known == (server in servers)
    {
      var i := 0;
      while i < |servers|
        invariant 0 <= i <= |servers| && server !in servers[..i]
      {
        if servers[i].ip == server.ip && servers[i].port == server.port { return true; }
        i := i + 1;
      }
      known := false;
    }

    method PushServer(server: M.Server)
      requires Valid()
      modifies this`servers
      ensures files == old(files)
      ensures Valid() && Footprint() == old(Footprint())
      ensures State() == old(State()).(servers := [server] + old(State()).servers)
    {
      hide table.Stack, table.Valid, cache.Valid, L.Keys;
      servers := [server] + servers;
      assert Recs(files) == old(Recs(files));
    }

    /** register_user. */
    method RegisterUser(name: string, ip: string)
      requires Valid()
      modifies this`users
      ensures files == old(files) && Footprint() == old(Footprint())
      ensures Valid() && State() == M.Do(old(State()), M.RegisterUser(name, ip))
    {
      hide table.Stack, table.Valid, cache.Valid, L.Keys, M.SetIp, M.KnownUser, Recs;
      var i := 0;
      while i < |users|
        invariant 0 <= i <= |users| && forall j :: 0 <= j < i ==> users[j].name != name
      {
        if users[i].name == name { break; }
        i := i + 1;
      }
      FirstUser(users, name, ip, i);
      if i < |users| {
        users := users[i := M.User(name, ip)];
      } else {
        users := [M.User(name, ip)] + users;
      }
      assert Recs(files) == old(Recs(files));
    }

    // ---- Delete ----

    /** The loop that finds a file in the list and unlinks it. */
    method WithoutFile(name: string) returns (rest: seq<FileMetadata>)
      requires DistinctNames(files)
      ensures DistinctNames(rest) && forall f :: f in rest <==> f in files && f.filename != name
      ensures Recs(rest) == M.DropFile(Recs(files), name)
    {
      hide DistinctNames, Recs;
      var i := 0;
      while i < |files|
        invariant 0 <= i <= |files| && forall j :: 0 <= j < i ==> files[j].filename != name
      {
        if files[i].filename == name { break; }
        i := i + 1;
      }
      ListCut(files, name, i);
      RecsCut(files, i);
      DropFileAt(Recs(files), name, i);
      rest := if i < |files| then files[..i] + files[i + 1..] else files;
    }

    /** Takes a file out of the index and the list; the cache is not touched. */
    method Unlist(name: string)
      requires Sound()
      modifies this`files, table.Repr
      ensures Sound() && table.Repr == old(table.Repr)
      ensures Footprint() == old(Footprint()) && cache.nodes == old(cache.nodes)
      ensures servers == old(servers) && users == old(users)
      ensures Recs(files) == M.DropFile(old(Recs(files)), name)
      ensures State() == old(State()).(files := M.DropFile(old(State()).files, name))
      ensures forall f :: f in files <==> f in old(files) && f.filename != name
    {
      hide cache.Valid, L.Keys, Recs, Indexed, DistinctNames;
      var rest := WithoutFile(name);
      Deindex(name, rest);
      files := rest;
    }

    method Deindex(name: string, ghost cut: seq<FileMetadata>)
      requires Sound() && forall f :: f in cut <==> f in files && f.filename != name
      modifies table.Repr
      ensures Indexed(cut) && table.Repr == old(table.Repr) && cache.Valid()
    {
      hide cache.Valid, table.Valid, table.Stack, DistinctNames;
      if table.Stack(name) != [] {
        assert table.Stack(table.Stack(name)[0].filename) == [table.Stack(name)[0]];
      }
      assert H.Pop(table.Stack(name)) == [];
      table.Delete(name);
    }

    /** The checks and the storage server call that both deletes share. */
    method AnswerDelete(name: string, actor: string, acked: bool) returns (reply: M.Reply)
      requires Valid()
      modifies cache, cache.nodes, cache.lookup.Repr
      ensures files == old(files)
      ensures Valid() && fresh(Footprint() - old(Footprint()))
      ensures reply == M.Answer(old(State()), M.Delete(name, actor, acked))
      ensures reply.Done? <==> M.Deletes(old(State()), name, actor, acked)
      ensures State() == if M.Find(old(State()).files, name).Some? then M.Seen(old(State()), name) else old(State())
      ensures !reply.Done? ==> State() == M.Do(old(State()), M.Delete(name, actor, acked))
    {
      hide Valid, State, table.Stack, table.Valid, cache.Valid, M.Find, M.Do, M.Answer, M.Deletes, M.Seen;
      ghost var before := State();
      var file, i := Open(name);
      SeenFiles(before, name);
      DeleteAnswered(before, name, actor, acked);
      if file.Some? {
        FoundOwner(i, before);
        reply := if file.value.owner != actor then M.Denied else if !acked then M.ServerFailed else M.Done;
      } else {
        reply := M.NotFound;
      }
    }

    lemma FoundOwner(i: nat, before: M.State)
      requires i < |files| && Valid() && before.files == State().files
      ensures M.Find(before.files, files[i].filename) == Some(files[i].Rec())
    {
      hide Indexed, Coherent, Apart, cache.Valid, M.Find;
      M.FindFacts(before.files, files[i].filename);
      assert before.files[i] in before.files;
    }

    /** handle_delete as the source has it. A successful delete always leaves a cache entry for a file that is gone. */
    method HandleDeleteAsWritten(name: string, actor: string, acked: bool) returns (reply: M.Reply)
      requires Valid()
      modifies Footprint()
      ensures Sound() && State() == M.DeleteAsWritten(old(State()), name, actor, acked)
      ensures reply == M.Answer(old(State()), M.Delete(name, actor, acked))
      ensures Coherent() <==> !reply.Done?
      ensures reply.Done? ==> exists n :: n in cache.nodes && n.key == name && n.value !in files
      ensures fresh(Footprint() - old(Footprint())) && forall f :: f in files ==> f in old(files)
    {
      hide Sound, table.Stack, table.Valid, cache.Valid, Touch, M.Find, Recs, L.Keys;
      reply := AnswerDelete(name, actor, acked);
      if reply.Done? {
        UnlistCached(name, old(State()));
      }
    }

    /** Taking a just looked-up file off the list leaves its cache entry dangling. */
    method UnlistCached(name: string, ghost before: M.State)
      requires Valid() && State() == M.Seen(before, name)
      modifies this`files, table.Repr
      ensures Sound() && State() == M.Seen(before, name).(files := M.DropFile(before.files, name))
      ensures exists n :: n in cache.nodes && n.key == name && n.value !in files
      ensures !Coherent() && Footprint() == old(Footprint()) && forall f :: f in files ==> f in old(files)
    {
      hide Sound, table.Stack, table.Valid, cache.Valid, Touch, Recs, L.Keys;
      TouchFront(before.cached, name);
      ghost var i :| 0 <= i < |cache.nodes| && L.Keys(cache.nodes)[i] == name;
      Unlist(name);
      assert cache.nodes[i] in cache.nodes && cache.nodes[i].key == name && cache.nodes[i].value !in files;
    }

    /** The repaired handle_delete also drops the cache entry, and keeps the cache in agreement. */
    method HandleDelete(name: string, actor: string, acked: bool) returns (reply: M.Reply)
      requires Valid()
      modifies Footprint()
      ensures Valid() && State() == M.Do(old(State()), M.Delete(name, actor, acked))
      ensures reply == M.Answer(old(State()), M.Delete(name, actor, acked))
      ensures fresh(Footprint() - old(Footprint())) && forall f :: f in files ==> f in old(files)
    {
      hide Valid, State, table.Stack, table.Valid, cache.Valid, M.Do, M.Deletes, M.Find, M.DropFile, Drop, Touch;
      ghost var before := State();
      reply := AnswerDelete(name, actor, acked);
      if reply.Done? {
        DeletesIs(before, name, actor, acked);
        Withdraw(name);
      }
    }

    method Withdraw(name: string)
      requires Valid()
      modifies Footprint()
      ensures Valid()
      ensures State()
        == old(State()).(files := M.DropFile(old(State()).files, name), cached := Drop(old(State()).cached, name))
      ensures fresh(Footprint() - old(Footprint())) && forall f :: f in files ==> f in old(files)
    {
      hide Sound, State, Coherent, table.Stack, table.Valid, cache.Valid;
      ghost var nodes, listed := cache.nodes, files;
      assert forall n :: n in nodes ==> n.value in listed && n.value.filename == n.key by { CachedListed(); }
      Unlist(name);
      Uncache(name);
      StillCoherent(nodes, listed, name);
    }

    lemma CachedListed()
      requires Coherent()
      ensures forall n :: n in cache.nodes ==> n.value in files && n.value.filename == n.key
    {
    }

    lemma StillCoherent(nodes: seq<L.Node<FileMetadata>>, listed: seq<FileMetadata>, name: string)
      requires forall n :: n in nodes ==> n.value in listed && n.value.filename == n.key
      requires forall n :: n in cache.nodes ==> n in nodes && n.key != name
      requires forall f :: f in files <==> f in listed && f.filename != name
      ensures Coherent()
    {
    }

    /** Dropping the cache entry of a name. */
    method Uncache(name: string)
      requires Sound()
      modifies cache, cache.nodes, cache.lookup.Repr
      ensures Sound() && unchanged(this) && Recs(files) == old(Recs(files)) && fresh(Footprint() - old(Footprint()))
      ensures State() == old(State()).(cached := Drop(old(State()).cached, name))
      ensures forall n :: n in cache.nodes ==> n in old(cache.nodes) && n.key != name
    {
      hide table.Stack, table.Valid, cache.Valid, Recs, DistinctNames, L.Keys, Drop;
      DropFacts(L.Keys(cache.nodes), name);
      cache.Forget(name);
      assert forall n :: n in cache.nodes ==> n.key != name by {
        forall i | 0 <= i < |cache.nodes| ensures cache.nodes[i].key != name {
          assert L.Keys(cache.nodes)[i] in L.Keys(cache.nodes);
        }
      }
    }

    // ---- Every request ----

    /** The server thread's dispatch of one request. */
    method Handle(q: Request) returns (reply: M.Reply)
      requires Valid() && q.Sound()
      modifies Footprint(), files
      ensures Valid() && State() == M.Do(old(State()), q.Step()) && reply == M.Answer(old(State()), q.Step())
      ensures fresh(Footprint() - old(Footprint())) && forall f :: f in files ==> f in old(files) || fresh(f)
    {
      hide Valid, State, M.Do, M.Answer, M.RegisterNames, Tokens;
      AlwaysDone(State(), q);
      match q
      case Connect(server, fileList) =>
        RegisterStorageServer(server, fileList);
        reply := M.Done;
      case Ask(RegisterUser(name, ip)) =>
        RegisterUser(name, ip);
        reply := M.Done;
      case Ask(Lookup(name)) => reply := HandleLookup(name);
      case Ask(Create(name, actor)) => reply := HandleCreate(name, actor);
      case Ask(CreateFolder(name, actor)) => reply := HandleCreateFolder(name, actor);
      case Ask(Delete(name, actor, acked)) => reply := HandleDelete(name, actor, acked);
      case Ask(AddAccess(name, target, perm, actor)) => reply := HandleAddAccess(name, target, perm, actor);
      case Ask(RemAccess(name, target, actor)) => reply := HandleRemAccess(name, target, actor);
      case Ask(RequestAccess(name, actor)) => reply := HandleReqAccess(name, actor);
      case Ask(Approve(name, target, actor)) => reply := HandleApproveReq(name, target, actor);
      case Ask(Reject(name, target, actor)) => reply := HandleRejectReq(name, target, actor);
      case Ask(Annotate(name, note, actor)) => reply := HandleAnnotate(name, note, actor);
    }
  }

  // ---- Whole runs ----

  /** A request as it arrives: a registering storage server sends its files in one text. */
  datatype Request =
    | Connect(server: M.Server, fileList: string)
    | Ask(step: M.Step)
  {
    predicate Sound() { Ask? ==> !step.RegisterServer? }

    function Step(): M.Step {
      match this
      case Connect(server, fileList) => M.RegisterServer(server, Tokens(fileList, {','}))
      case Ask(step) => step
    }
  }

  function Steps(run: seq<Request>): (r: seq<M.Step>)
    ensures |r| == |run| && forall i :: 0 <= i < |r| ==> r[i] == run[i].Step()
  {
    seq(|run|, i requires 0 <= i < |run| => run[i].Step())
  }

  /** The state before request k of a run from an empty server. */
  function Before(run: seq<Request>, k: nat): M.State
    requires k <= |run|
  {
    M.After(M.State([], [], [], []), Steps(run)[..k])
  }

  lemma BeforeNext(run: seq<Request>, k: nat)
    requires k < |run|
    ensures Before(run, 0) == M.State([], [], [], [])
    ensures Before(run, k + 1) == M.Do(Before(run, k), run[k].Step())
  {
    hide M.Do;
    assert Steps(run)[..k + 1][..k] == Steps(run)[..k];
  }

  lemma BeforeEnds(run: seq<Request>)
    ensures Before(run, 0) == M.State([], [], [], [])
    ensures Before(run, |run|) == M.After(M.State([], [], [], []), Steps(run))
  {
    assert Steps(run)[..|run|] == Steps(run);
  }

  /** Any run of requests, from an empty server on: the heap always agrees, and state and answers are those
      specified. */
  method Serve(run: seq<Request>) returns (server: Server, replies: seq<M.Reply>)
    requires forall q :: q in run ==> q.Sound()
    ensures fresh(server) && server.Valid()
    ensures server.State() == M.After(M.State([], [], [], []), Steps(run))
    ensures |replies| == |run|
    ensures forall i :: 0 <= i < |run| ==> replies[i] == M.Answer(Before(run, i), run[i].Step())
  {
    hide server.Valid, server.State, Before, M.Do, M.Answer, M.After, Steps;
    BeforeEnds(run);
    server := new Server();
    replies := [];
    var k := 0;
    while k < |run|
      invariant 0 <= k <= |run| && fresh(server) && server.Valid() && fresh(server.Footprint())
      invariant forall f :: f in server.files ==> fresh(f)
      invariant server.State() == Before(run, k)
      invariant |replies| == k
      invariant forall i :: 0 <= i < k ==> replies[i] == M.Answer(Before(run, i), run[i].Step())
    {
      assert run[k] in run && forall i :: 0 <= i < |server.files| ==> server.files[i] in server.files;
      BeforeNext(run, k);
      var reply := server.Handle(run[k]);
      replies := replies + [reply];
      k := k + 1;
    }
  }

  lemma AlwaysDone(st: M.State, q: Request)
    ensures q.Step().RegisterServer? || q.Step().RegisterUser? ==> M.Answer(st, q.Step()) == M.Done
  {
    hide Tokens;
  }

  lemma SeenFiles(st: M.State, name: string)
    ensures M.Seen(st, name).files == st.files
  {
    hide Touch;
  }

  lemma DeleteAnswered(st: M.State, name: string, actor: string, acked: bool)
    ensures var f, reply := M.Find(st.files, name), M.Answer(st, M.Delete(name, actor, acked));
      && reply == (if f.None? then M.NotFound else if f.value.owner != actor then M.Denied
                   else if !acked then M.ServerFailed else M.Done)
      && (reply.Done? <==> M.Deletes(st, name, actor, acked))
      && (!reply.Done? ==> M.Do(st, M.Delete(name, actor, acked)) == if f.Some? then M.Seen(st, name) else st)
  {
    hide M.Find, Touch, Drop, M.DropFile;
  }

  lemma DeletesIs(st: M.State, name: string, actor: string, acked: bool)
    requires M.Deletes(st, name, actor, acked)
    ensures M.Find(st.files, name).Some?
    ensures var seen := M.Seen(st, name);
      M.Do(st, M.Delete(name, actor, acked))
        == seen.(files := M.DropFile(seen.files, name), cached := Drop(seen.cached, name))
  {
    hide M.Find, M.DropFile, Drop, Touch;
  }

  lemma TouchFront(cached: seq<string>, name: string)
    ensures name in Touch(cached, name, CACHE_SIZE)
  {
    assert Touch(cached, name, CACHE_SIZE)[0] == name;
  }

  lemma NextRegistered(st: M.State, server: M.Server, left: string)
    requires Token(left, {','}).Some?
    ensures M.RegisterNames(st, server, Tokens(left, {','}))
      == var next := M.RegisterName(st, server, Token(left, {','}).value);
         M.RegisterNames(next, server, Tokens(AfterToken(left, {','}), {','}))
  {
    hide Token, AfterToken, M.RegisterName;
    var names := Tokens(left, {','});
    assert names[1..] == Tokens(AfterToken(left, {','}), {','});
  }

  lemma LastRegistered(st: M.State, server: M.Server, left: string)
    requires Token(left, {','}).None?
    ensures M.RegisterNames(st, server, Tokens(left, {','})) == st
  {
    hide Token;
  }

  lemma {:induction false} FirstUser(users: seq<M.User>, name: string, ip: string, i: nat)
    requires i <= |users| && (forall j :: 0 <= j < i ==> users[j].name != name)
    requires i < |users| ==> users[i].name == name
    ensures M.KnownUser(users, name) <==> i < |users|
    ensures i < |users| ==> M.SetIp(users, name, ip) == users[i := M.User(name, ip)]
    decreases i
  {
    if i < |users| { assert users[i] in users; }
    if i > 0 && i < |users| { FirstUser(users[1..], name, ip, i - 1); }
  }

  lemma RecsPushed(file: FileMetadata, files: seq<FileMetadata>)
    ensures Recs([file] + files) == [file.Rec()] + Recs(files)
  {
  }

  lemma RecsCut(files: seq<FileMetadata>, i: nat)
    requires i <= |files|
    ensures i < |files| ==> Recs(files[..i] + files[i + 1..]) == Recs(files)[..i] + Recs(files)[i + 1..]
    ensures forall j :: 0 <= j < |files| ==> Recs(files)[j].name == files[j].filename
  {
  }

  lemma NotFound(st: M.State, s: M.Step)
    requires M.OnOneFile(s) && M.Find(st.files, s.name).None?
    ensures M.Do(st, s) == st && M.Answer(st, s) == M.NotFound
  {
  }

  lemma {:induction false} DropFileAt(files: seq<M.FileRec>, name: string, i: nat)
    requires i <= |files| && (forall j :: 0 <= j < i ==> files[j].name != name)
    requires i < |files| ==> files[i].name == name
    ensures M.DropFile(files, name) == if i < |files| then files[..i] + files[i + 1..] else files
    decreases i
  {
    if i > 0 {
      DropFileAt(files[1..], name, i - 1);
      if i < |files| { CutTail(files, i); }
    }
  }

  lemma ListCut(files: seq<FileMetadata>, name: string, i: nat)
    requires DistinctNames(files) && i <= |files|
    requires (forall j :: 0 <= j < i ==> files[j].filename != name) && (i < |files| ==> files[i].filename == name)
    ensures var cut := if i < |files| then files[..i] + files[i + 1..] else files;
      && DistinctNames(cut)
      && forall f :: f in cut <==> f in files && f.filename != name
  {
    var cut := if i < |files| then files[..i] + files[i + 1..] else files;
    forall f | f in files && f.filename != name ensures f in cut {
      var j :| 0 <= j < |files| && files[j] == f;
      assert i < |files| ==> cut[if j < i then j else j - 1] == f;
    }
  }

  lemma LookupChangesNothing(st: M.State, name: string)
    requires M.Find(st.files, name).Some?
    ensures M.Do(st, M.Lookup(name)) == M.Seen(st, name)
  {
    hide M.Find, Touch;
    assert M.Alter(st, M.Lookup(name)) == st.files;
  }
}
