/** Loading what was saved, with the nested strtok of the source and with its two-cursor repair. */
module RoundTrip {
  import opened Text
  import opened Metadata
  import opened Persistence

  predicate Word(s: string, separators: set<char>) { s != [] && NoneIn(s, separators) }

  const FIELD_ENDS: set<char> := {';', '\n'}
  const ENTRY_ENDS: set<char> := {';', ',', '\n'}

  predicate EntryClean(a: Access) { Word(a.user, ENTRY_ENDS) && a.perm !in ENTRY_ENDS }

  /** Names free of delimiters and lines that fit the buffer. */
  ghost predicate Saveable(f: FileRec) {
    && Word(f.name, FIELD_ENDS) && Word(f.owner, FIELD_ENDS) && Word(f.server.ip, FIELD_ENDS)
    && (forall a :: a in f.acl && a.user != f.owner ==> EntryClean(a))
    && NoneIn(f.note, NEWLINE)
    && |MetaLine(f)| + 1 < 2048 && |NoteLine(f)| + 1 < 2048
  }

  /** The files whose storage server is registered. */
  function Known(files: seq<FileRec>, servers: seq<Server>): seq<FileRec> {
    if files == [] then []
    else (if files[0].server in servers then [files[0]] else []) + Known(files[1..], servers)
  }

  /** The entries that survive a load: all of them, or as written the first only. */
  function Kept(es: seq<Access>, twoCursors: bool): seq<Access> {
    if twoCursors || es == [] then es else [es[0]]
  }

  /** A file as it comes back: the access list reversed, the owner's entry last, nothing pending. */
  function Reload(f: FileRec, twoCursors: bool): FileRec {
    FileRec(f.name, f.owner, false, f.server,
            Reverse(Kept(Others(f.acl, f.owner), twoCursors)) + [Access(f.owner, 'W')], [], f.note)
  }

  function ReloadAll(files: seq<FileRec>, twoCursors: bool): (r: seq<FileRec>)
    ensures |r| == |files| && forall i :: 0 <= i < |r| ==> r[i] == Reload(files[i], twoCursors)
  {
    seq(|files|, i requires 0 <= i < |files| => Reload(files[i], twoCursors))
  }

  // ---- Lines ----

  lemma LineFirst(line: string, rest: string)
    requires NoneIn(line, NEWLINE) && |line| + 1 < LINE_BUFFER
    ensures Lines(line + "\n" + rest) == [line] + Lines(rest)
  {
    var text := line + "\n" + rest;
    var n := |line| + 1;
    assert forall i :: 0 <= i < |line| ==> line[i] in line && text[i] == line[i];
    assert text[|line|] == '\n';
    CSpanIs(text, NEWLINE, |line|);
    assert text[..n] == line + "\n" && text[n..] == rest;
    CSpanIs(text[..n], NEWLINE, |line|);
    assert text[..n][..|line|] == line;
  }

  lemma {:induction false} OthersIn(acl: seq<Access>, owner: string)
    ensures forall a :: a in Others(acl, owner) <==> a in acl && a.user != owner
  {
    if acl != [] {
      OthersIn(acl[1..], owner);
      assert acl == [acl[0]] + acl[1..];
    }
  }

  lemma {:induction false} EntriesTextClean(es: seq<Access>)
    requires forall a :: a in es ==> EntryClean(a)
    ensures NoneIn(EntriesText(es), NEWLINE)
  {
    if es != [] {
      EntriesTextClean(es[1..]);
      assert EntryClean(es[0]);
    }
  }

  lemma MetaLineClean(f: FileRec)
    requires Saveable(f)
    ensures NoneIn(MetaLine(f), NEWLINE) && NoneIn(NoteLine(f), NEWLINE)
  {
    hide EntriesText, Others, IntText;
    OthersIn(f.acl, f.owner);
    EntriesTextClean(Others(f.acl, f.owner));
    IntTextValue(f.server.port);
  }

  function MetaLines(files: seq<FileRec>): seq<string> {
    if files == [] then [] else [MetaLine(files[0])] + MetaLines(files[1..])
  }

  lemma {:induction false} MetaTextLines(files: seq<FileRec>)
    requires forall f :: f in files ==> Saveable(f)
    ensures Lines(MetaText(files)) == MetaLines(files)
  {
    hide MetaLine, Saveable, NoteLine;
    if files != [] {
      assert Saveable(files[0]);
      LineLength(files[0]);
      MetaLineClean(files[0]);
      MetaTextLines(files[1..]);
      hide Lines;
      LineFirst(MetaLine(files[0]), MetaText(files[1..]));
    }
  }

  lemma LineLength(f: FileRec)
    requires Saveable(f)
    ensures |MetaLine(f)| + 1 < LINE_BUFFER && |NoteLine(f)| + 1 < LINE_BUFFER
  {
  }

  // ---- One line ----

  lemma EntryParses(a: Access)
    requires EntryClean(a)
    ensures ParseEntry(EntryText(a)) == [a] && InnerRest(EntryText(a)) == []
    ensures EntryText(a) != [] && NoneIn(EntryText(a), SEMI)
  {
    hide Token, AfterToken;
    assert EntryText(a) == a.user + [','] + [a.perm];
    TokenOfPrefix(a.user, ',', [a.perm], COMMA);
    TokenOfWhole([a.perm], COMMA);
  }

  /** The rest of a line after the port: the entries without the leading separator. */
  function Body(es: seq<Access>): string { if es == [] then [] else EntriesText(es)[1..] }

  lemma {:induction false} EntriesParse(es: seq<Access>, twoCursors: bool)
    requires forall a :: a in es ==> EntryClean(a)
    ensures Entries(Body(es), twoCursors) == Kept(es, twoCursors)
  {
    hide Token, AfterToken, ParseEntry, InnerRest, EntryText, Body;
    NoToken();
    if es == [] {
      BodyEmpty();
    } else {
      var t := EntryText(es[0]);
      EntryParses(es[0]);
      BodyStep(es);
      if |es| == 1 {
        TokenOfWhole(t, SEMI);
      } else {
        TokenOfPrefix(t, ';', Body(es[1..]), SEMI);
        if twoCursors { EntriesParse(es[1..], twoCursors); }
      }
    }
  }

  lemma BodyEmpty()
    ensures Body([]) == []
  {
  }

  lemma BodyStep(es: seq<Access>)
    requires es != []
    ensures |es| == 1 ==> Body(es) == EntryText(es[0])
    ensures |es| > 1 ==> Body(es) == EntryText(es[0]) + [';'] + Body(es[1..])
  {
    hide EntryText;
    var t, later := EntryText(es[0]), EntriesText(es[1..]);
    assert EntriesText(es) == [';'] + (t + later);
    assert Body(es) == t + later;
    if |es| == 1 { assert later == []; } else { assert later == [';'] + Body(es[1..]); }
  }

  lemma NoToken()
    ensures Token([], SEMI) == None
  {
    assert AllIn([], SEMI);
  }

  lemma {:induction false} ServerFound(servers: seq<Server>, server: Server)
    ensures FindServer(servers, server.ip, server.port) == if server in servers then Some(server) else None
  {
    if servers != [] && servers[0] != server {
      assert servers == [servers[0]] + servers[1..];
      ServerFound(servers[1..], server);
    }
  }

  lemma FourFields(a: string, b: string, c: string, d: string, es: seq<Access>)
    requires Word(a, SEMI) && Word(b, SEMI) && Word(c, SEMI) && Word(d, SEMI)
    ensures var line := a + ";" + b + ";" + c + ";" + d + EntriesText(es);
      var r1 := AfterToken(line, SEMI);
      var r2 := AfterToken(r1, SEMI);
      var r3 := AfterToken(r2, SEMI);
      && Token(line, SEMI) == Some(a) && Token(r1, SEMI) == Some(b) && Token(r2, SEMI) == Some(c)
      && Token(r3, SEMI) == Some(d) && AfterToken(r3, SEMI) == Body(es)
  {
    hide Token, AfterToken, EntryText;
    var t3 := d + EntriesText(es);
    var t2 := c + [';'] + t3;
    var t1 := b + [';'] + t2;
    assert a + ";" + b + ";" + c + ";" + d + EntriesText(es) == a + [';'] + t1;
    TokenOfPrefix(a, ';', t1, SEMI);
    TokenOfPrefix(b, ';', t2, SEMI);
    TokenOfPrefix(c, ';', t3, SEMI);
    if es == [] {
      assert t3 == d;
      TokenOfWhole(d, SEMI);
    } else {
      assert t3 == d + [';'] + Body(es);
      TokenOfPrefix(d, ';', Body(es), SEMI);
    }
  }

  lemma LineParses(f: FileRec, servers: seq<Server>, twoCursors: bool)
    requires Saveable(f)
    ensures ParseFile(MetaLine(f), servers, twoCursors)
      == if f.server in servers then Some(Reload(f, twoCursors).(note := "")) else None
  {
    hide Token, AfterToken, Entries, EntriesText, Others, Atoi, IntText, Reverse, FindServer, Body;
    var es := Others(f.acl, f.owner);
    IntTextValue(f.server.port);
    FourFields(f.name, f.owner, f.server.ip, IntText(f.server.port), es);
    OthersIn(f.acl, f.owner);
    EntriesParse(es, twoCursors);
    ServerFound(servers, f.server);
  }

  // ---- The whole file list ----

  function Bare(files: seq<FileRec>, twoCursors: bool): seq<FileRec> {
    seq(|files|, i requires 0 <= i < |files| => Reload(files[i], twoCursors).(note := ""))
  }

  lemma {:induction false} FilesLoad(acc: seq<FileRec>, files: seq<FileRec>, servers: seq<Server>, twoCursors: bool)
    requires forall f :: f in files ==> Saveable(f)
    ensures LoadFiles(acc, MetaLines(files), servers, twoCursors)
      == Reverse(Bare(Known(files, servers), twoCursors)) + acc
    decreases |files|
  {
    hide ParseFile, MetaLine, Reload, Saveable, Bare;
    if files == [] {
      assert Bare(Known(files, servers), twoCursors) == [] by { BareCons([], twoCursors); }
    } else {
      LineParses(files[0], servers, twoCursors);
      var lines, later := MetaLines(files), Known(files[1..], servers);
      assert lines[0] == MetaLine(files[0]) && lines[1..] == MetaLines(files[1..]);
      if files[0].server in servers {
        var r := Reload(files[0], twoCursors).(note := "");
        FilesLoad([r] + acc, files[1..], servers, twoCursors);
        BareCons([files[0]] + later, twoCursors);
        assert ([files[0]] + later)[1..] == later;
      } else {
        FilesLoad(acc, files[1..], servers, twoCursors);
        assert [] + acc == acc && [] + later == later;
      }
    }
  }

  lemma BareCons(files: seq<FileRec>, twoCursors: bool)
    ensures files == [] ==> Bare(files, twoCursors) == []
    ensures files != [] ==>
      Bare(files, twoCursors) == [Reload(files[0], twoCursors).(note := "")] + Bare(files[1..], twoCursors)
  {
    hide Reload;
  }

  lemma KnownCons(f: FileRec, rest: seq<FileRec>, servers: seq<Server>)
    ensures Known([f] + rest, servers)
      == if f.server in servers then [f] + Known(rest, servers) else Known(rest, servers)
  {
    assert ([f] + rest)[1..] == rest;
    assert [] + Known(rest, servers) == Known(rest, servers);
  }

  lemma {:induction false} KnownFacts(files: seq<FileRec>, servers: seq<Server>)
    ensures forall f :: f in Known(files, servers) <==> f in files && f.server in servers
    ensures NamesDistinct(files) ==> NamesDistinct(Known(files, servers))
    ensures (forall f :: f in files ==> f.server in servers) ==> Known(files, servers) == files
  {
    if files == [] {
      assert Known([], servers) == [];
    } else {
      hide Known, NamesDistinct;
      var f, rest := files[0], files[1..];
      KnownFacts(rest, servers);
      KnownCons(f, rest, servers);
      assert files == [f] + rest;
      if NamesDistinct(files) { FirstDistinct(f, rest, Known(rest, servers)); }
    }
  }

  lemma FirstDistinct(f: FileRec, rest: seq<FileRec>, known: seq<FileRec>)
    requires NamesDistinct([f] + rest) && forall g :: g in known ==> g in rest
    ensures NamesDistinct(rest)
    ensures NamesDistinct(known) ==> NamesDistinct([f] + known)
  {
    assert forall i :: 0 <= i < |rest| ==> rest[i] == ([f] + rest)[i + 1];
    forall i | 0 <= i < |known| ensures known[i].name != f.name {
      assert known[i] in rest;
      var j :| 0 <= j < |rest| && rest[j] == known[i];
      assert ([f] + rest)[0].name != ([f] + rest)[j + 1].name;
    }
  }

  lemma {:induction false} ReverseAt<T>(s: seq<T>, i: nat)
    requires i < |s|
    ensures Reverse(s)[i] == s[|s| - 1 - i]
  {
    if i < |s| - 1 { ReverseAt(s[1..], i); }
  }

  lemma {:induction false} ReverseTwice<T>(s: seq<T>)
    ensures Reverse(Reverse(s)) == s
  {
    forall i | 0 <= i < |s| ensures Reverse(Reverse(s))[i] == s[i] {
      ReverseAt(Reverse(s), i);
      ReverseAt(s, |s| - 1 - i);
    }
  }

  // ---- Notes ----

  function NoteLines(files: seq<FileRec>): seq<string> {
    if files == [] then []
    else (if files[0].note != [] then [NoteLine(files[0])] else []) + NoteLines(files[1..])
  }

  lemma {:induction false} NoteTextLines(files: seq<FileRec>)
    requires forall f :: f in files ==> Saveable(f)
    ensures Lines(NoteText(files)) == NoteLines(files)
  {
    hide NoteLine, Saveable, MetaLine;
    if files != [] {
      LineLength(files[0]);
      MetaLineClean(files[0]);
      NoteTextLines(files[1..]);
      hide Lines;
      if files[0].note != [] {
        LineFirst(NoteLine(files[0]), NoteText(files[1..]));
      } else {
        assert [] + NoteText(files[1..]) == NoteText(files[1..]);
        assert [] + NoteLines(files[1..]) == NoteLines(files[1..]);
      }
    }
  }

  lemma NoteParses(loaded: seq<FileRec>, f: FileRec)
    requires Saveable(f) && f.note != []
    ensures LoadNote(loaded, NoteLine(f)) == SetNote(loaded, f.name, f.note)
  {
    hide Token, AfterToken, SetNote;
    assert NoteLine(f) == f.name + [';'] + f.note;
    TokenOfPrefix(f.name, ';', f.note, SEMI);
    TokenOfWhole(f.note, NEWLINE);
  }

  lemma {:induction false} SetNoteAt(files: seq<FileRec>, name: string, note: string)
    requires NamesDistinct(files)
    ensures |SetNote(files, name, note)| == |files|
    ensures forall i :: 0 <= i < |files| ==>
      SetNote(files, name, note)[i] == if files[i].name == name then files[i].(note := note) else files[i]
  {
    if files != [] {
      assert NamesDistinct(files[1..]);
      SetNoteAt(files[1..], name, note);
    }
  }

  function WithNote(g: FileRec, files: seq<FileRec>): FileRec {
    var f := Find(files, g.name);
    if f.Some? && f.value.note != [] then g.(note := f.value.note) else g
  }

  lemma {:induction false} NotesLoad(loaded: seq<FileRec>, files: seq<FileRec>)
    requires forall f :: f in files ==> Saveable(f)
    requires NamesDistinct(loaded) && NamesDistinct(files)
    ensures |LoadNotes(loaded, NoteLines(files))| == |loaded|
    ensures forall i :: 0 <= i < |loaded| ==> LoadNotes(loaded, NoteLines(files))[i] == WithNote(loaded[i], files)
    decreases |files|
  {
    hide LoadNote, NoteLine, Saveable, SetNote;
    if files != [] {
      var f, rest := files[0], files[1..];
      assert NamesDistinct(rest);
      assert Find(rest, f.name).None? by { FindFacts(rest, f.name); }
      if f.note != [] {
        NoteParses(loaded, f);
        assert NoteLines(files)[0] == NoteLine(f) && NoteLines(files)[1..] == NoteLines(rest);
        SetNoteAt(loaded, f.name, f.note);
        NotesLoad(SetNote(loaded, f.name, f.note), rest);
      } else {
        assert [] + NoteLines(rest) == NoteLines(rest);
        NotesLoad(loaded, rest);
      }
    }
  }

  // ---- The round trip ----

  /** Everything the three files hold, read back into an empty server. */
  function LoadSaved(files: seq<FileRec>, servers: seq<Server>, twoCursors: bool): seq<FileRec> {
    LoadNotes(LoadFiles([], Lines(MetaText(files)), servers, twoCursors), Lines(NoteText(files)))
  }

  /** Load after save restores name, owner, server and note of the files whose server is registered, and of no others,
      with their order reversed; the access list comes back reversed and whole with two cursors, and reduced to its
      first entry as written. */
  lemma SaveThenLoad(files: seq<FileRec>, servers: seq<Server>, twoCursors: bool)
    requires NamesDistinct(files) && forall f :: f in files ==> Saveable(f)
    ensures LoadSaved(files, servers, twoCursors) == Reverse(ReloadAll(Known(files, servers), twoCursors))
    ensures NamesDistinct(LoadSaved(files, servers, twoCursors))
  {
    hide Lines, MetaText, NoteText, LoadNotes, LoadFiles, MetaLines, NoteLines, Saveable, Reverse, Reload, WithNote,
      NamesDistinct, Bare, Known;
    MetaTextLines(files);
    NoteTextLines(files);
    FilesLoad([], files, servers, twoCursors);
    KnownFacts(files, servers);
    var known := Known(files, servers);
    var bare := Reverse(Bare(known, twoCursors));
    assert bare + [] == bare;
    BareIs(known, twoCursors);
    BareNames(known, twoCursors, bare);
    NotesLoad(bare, files);
    var loaded := LoadNotes(bare, NoteLines(files));
    forall i | 0 <= i < |bare| ensures loaded[i] == Reverse(ReloadAll(known, twoCursors))[i] {
      ReverseAt(ReloadAll(known, twoCursors), i);
      NoteBack(files, known[|known| - 1 - i], twoCursors);
    }
    BackNames(known, twoCursors, loaded);
  }

  /** A saved file comes back exactly when its storage server is registered by then. */
  lemma ComesBack(files: seq<FileRec>, servers: seq<Server>, twoCursors: bool, f: FileRec)
    requires NamesDistinct(files) && (forall g :: g in files ==> Saveable(g)) && f in files
    ensures (exists g :: g in LoadSaved(files, servers, twoCursors) && g.name == f.name) <==> f.server in servers
    ensures f.server in servers ==> Reload(f, twoCursors) in LoadSaved(files, servers, twoCursors)
  {
    hide Saveable, LoadSaved, Reverse, Known, Others;
    SaveThenLoad(files, servers, twoCursors);
    KnownFacts(files, servers);
    var known := Known(files, servers);
    ReverseIn(ReloadAll(known, twoCursors));
    if f.server in servers {
      var i :| 0 <= i < |known| && known[i] == f;
      assert ReloadAll(known, twoCursors)[i] == Reload(f, twoCursors);
    }
    forall g | g in ReloadAll(known, twoCursors) && g.name == f.name ensures f in known {
      var i :| 0 <= i < |known| && g == Reload(known[i], twoCursors);
      assert known[i] in known;
      SameName(files, known[i], f);
    }
  }

  lemma SameName(files: seq<FileRec>, f: FileRec, g: FileRec)
    requires NamesDistinct(files) && f in files && g in files && f.name == g.name
    ensures f == g
  {
  }

  lemma ReloadDistinct(f: FileRec, twoCursors: bool)
    requires AclDistinct(f.acl)
    ensures FileOk(Reload(f, twoCursors))
  {
    hide Others, Reverse;
    var es := Kept(Others(f.acl, f.owner), twoCursors);
    OthersDistinct(f.acl, f.owner);
    OthersIn(f.acl, f.owner);
    forall i | 0 <= i < |es| ensures Reverse(es)[i] == es[|es| - 1 - i] && es[i].user != f.owner {
      ReverseAt(es, i);
      assert es[i] in Others(f.acl, f.owner);
    }
    OwnerLast(es, Reverse(es), f.owner);
  }

  lemma OwnerLast(es: seq<Access>, r: seq<Access>, owner: string)
    requires AclDistinct(es) && |r| == |es|
    requires forall i :: 0 <= i < |es| ==> r[i] == es[|es| - 1 - i] && es[i].user != owner
    ensures AclDistinct(r + [Access(owner, 'W')])
  {
    forall i, j | 0 <= i < j < |r| ensures r[i].user != r[j].user {
      assert es[|es| - 1 - j].user != es[|es| - 1 - i].user;
    }
    assert forall i :: 0 <= i < |r| ==> r[i].user == es[|es| - 1 - i].user;
  }

  /** What a load gives back meets the invariant of every run, so all that holds of runs holds from there on. */
  lemma LoadedKeeps(files: seq<FileRec>, servers: seq<Server>, users: seq<User>, twoCursors: bool)
    requires NamesDistinct(files) && forall f :: f in files ==> Saveable(f) && AclDistinct(f.acl)
    ensures Inv(State(LoadSaved(files, servers, twoCursors), servers, users, []))
  {
    hide Saveable, LoadSaved, Reverse, Known, AclDistinct, Reload, NamesDistinct, Find;
    SaveThenLoad(files, servers, twoCursors);
    KnownFacts(files, servers);
    var known := Known(files, servers);
    var all := ReloadAll(known, twoCursors);
    ReverseIn(all);
    forall f | f in all ensures FileOk(f) {
      var i :| 0 <= i < |known| && f == Reload(known[i], twoCursors);
      assert known[i] in known;
      ReloadDistinct(known[i], twoCursors);
    }
    hide FileOk;
    var loaded := State(LoadSaved(files, servers, twoCursors), servers, users, []);
    assert NamesDistinct(loaded.files);
    assert forall f :: f in loaded.files ==> f in all && FileOk(f);
    assert loaded.cached == [];
  }

  /** The start-up order of main: before any server has registered nothing comes back, whatever the files hold, and a
      save of what was loaded leaves nothing of them. */
  lemma StartUpLoadsNothing(metaText: string, noteText: string, twoCursors: bool)
    ensures var loaded := LoadNotes(LoadFiles([], Lines(metaText), [], twoCursors), Lines(noteText));
      loaded == [] && MetaText(loaded) == "" && NoteText(loaded) == ""
  {
    hide Lines;
    NoServerNoFile(Lines(metaText), twoCursors);
    NoFileNoNote(Lines(noteText));
  }

  lemma {:induction false} NoServerNoFile(lines: seq<string>, twoCursors: bool)
    ensures LoadFiles([], lines, [], twoCursors) == []
    decreases |lines|
  {
    hide Token, AfterToken, Atoi, Entries;
    if lines != [] {
      NoServerNoFile(lines[1..], twoCursors);
      assert ParseFile(lines[0], [], twoCursors).None?;
      Regroup<FileRec>([], [], []);
      assert LoadFiles([], lines, [], twoCursors) == LoadFiles([] + [], lines[1..], [], twoCursors);
    }
  }

  lemma {:induction false} NoFileNoNote(lines: seq<string>)
    ensures LoadNotes([], lines) == []
    decreases |lines|
  {
    hide Token, AfterToken;
    if lines != [] { NoFileNoNote(lines[1..]); }
  }

  lemma BareIs(files: seq<FileRec>, twoCursors: bool)
    ensures var bare := Reverse(Bare(files, twoCursors));
      && |bare| == |files|
      && forall i :: 0 <= i < |bare| ==> bare[i] == Reload(files[|files| - 1 - i], twoCursors).(note := "")
  {
    hide Reverse, Reload;
    forall i | 0 <= i < |files|
      ensures Reverse(Bare(files, twoCursors))[i] == Reload(files[|files| - 1 - i], twoCursors).(note := "")
    {
      ReverseAt(Bare(files, twoCursors), i);
    }
  }

  lemma BackNames(files: seq<FileRec>, twoCursors: bool, loaded: seq<FileRec>)
    requires NamesDistinct(files) && loaded == Reverse(ReloadAll(files, twoCursors))
    ensures NamesDistinct(loaded)
  {
    hide Reverse, ReloadAll;
    forall i | 0 <= i < |loaded| ensures loaded[i].name == files[|files| - 1 - i].name {
      ReverseAt(ReloadAll(files, twoCursors), i);
    }
  }

  lemma BareNames(files: seq<FileRec>, twoCursors: bool, bare: seq<FileRec>)
    requires NamesDistinct(files) && |bare| == |files|
    requires forall i :: 0 <= i < |bare| ==> bare[i] == Reload(files[|files| - 1 - i], twoCursors).(note := "")
    ensures NamesDistinct(bare)
    ensures forall i :: 0 <= i < |bare| ==> bare[i].name == files[|files| - 1 - i].name
  {
  }

  lemma NoteBack(files: seq<FileRec>, f: FileRec, twoCursors: bool)
    requires NamesDistinct(files) && f in files
    ensures WithNote(Reload(f, twoCursors).(note := ""), files) == Reload(f, twoCursors)
  {
    hide Find;
    FindFacts(files, f.name);
  }

  function ReloadUsers(users: seq<User>): seq<User> {
    if users == [] then [] else ReloadUsers(users[1..]) + [User(users[0].name, "0.0.0.0")]
  }

  /** Users come back in reverse order, their addresses reset. */
  lemma {:induction false} UsersLoad(acc: seq<User>, users: seq<User>)
    requires forall u :: u in users ==> Word(u.name, NEWLINE) && |u.name| + 1 < LINE_BUFFER
    ensures LoadUsers(acc, Lines(UserText(users))) == ReloadUsers(users) + acc
    decreases |users|
  {
    hide Lines;
    if users == [] {
      assert Lines([]) == [] by { NoLines(); }
    } else {
      var u, later := User(users[0].name, "0.0.0.0"), Lines(UserText(users[1..]));
      LineFirst(users[0].name, UserText(users[1..]));
      assert ([users[0].name] + later)[1..] == later;
      UsersLoad([u] + acc, users[1..]);
    }
  }

  lemma NoLines()
    ensures Lines([]) == []
  {
  }

  // ---- Two rounds ----

  lemma Regroup<T>(a: seq<T>, b: seq<T>, c: seq<T>)
    ensures a + (b + c) == a + b + c
    ensures [] + c == c
  {
  }

  lemma OthersCons(a: Access, acl: seq<Access>, owner: string)
    ensures Others([a] + acl, owner) == (if a.user != owner then [a] else []) + Others(acl, owner)
    ensures Others([], owner) == []
  {
    assert ([a] + acl)[1..] == acl;
  }

  lemma {:induction false} OthersAppend(a: seq<Access>, b: seq<Access>, owner: string)
    ensures Others(a + b, owner) == Others(a, owner) + Others(b, owner)
  {
    hide Others;
    if a == [] {
      OthersCons(Access(owner, 'W'), [], owner);
      Regroup([], [], b);
      Regroup([], [], Others(b, owner));
    } else {
      var h, x := a[0], a[1..];
      OthersAppend(x, b, owner);
      assert a == [h] + x;
      Regroup([h], x, b);
      OthersCons(h, x + b, owner);
      OthersCons(h, x, owner);
      Regroup(if h.user != owner then [h] else [], Others(x, owner), Others(b, owner));
    }
  }

  lemma {:induction false} OthersAll(es: seq<Access>, owner: string)
    requires forall a :: a in es ==> a.user != owner
    ensures Others(es, owner) == es
  {
    if es != [] {
      assert es == [es[0]] + es[1..];
      OthersAll(es[1..], owner);
    }
  }

  lemma EntriesTextCons(a: Access, es: seq<Access>)
    ensures EntriesText([a] + es) == ";" + EntryText(a) + EntriesText(es)
    ensures EntriesText([]) == []
  {
    hide EntryText;
    assert ([a] + es)[1..] == es;
  }

  lemma {:induction false} EntriesTextAppend(a: seq<Access>, b: seq<Access>)
    ensures EntriesText(a + b) == EntriesText(a) + EntriesText(b)
  {
    hide EntryText, EntriesText;
    if a == [] {
      EntriesTextCons(Access("", 'W'), []);
      Regroup([], [], b);
      Regroup([], [], EntriesText(b));
    } else {
      var h, x := a[0], a[1..];
      EntriesTextAppend(x, b);
      assert a == [h] + x;
      Regroup([h], x, b);
      EntriesTextCons(h, x + b);
      EntriesTextCons(h, x);
      Regroup(";" + EntryText(h), EntriesText(x), EntriesText(b));
    }
  }

  lemma {:induction false} EntriesTextReverse(es: seq<Access>)
    ensures |EntriesText(Reverse(es))| == |EntriesText(es)|
  {
    if es != [] {
      EntriesTextReverse(es[1..]);
      EntriesTextAppend(Reverse(es[1..]), [es[0]]);
      assert EntriesText([es[0]]) == ";" + EntryText(es[0]) + EntriesText([]);
    }
  }

  lemma OthersReloaded(f: FileRec)
    ensures Others(Reload(f, true).acl, f.owner) == Reverse(Others(f.acl, f.owner))
  {
    var es := Others(f.acl, f.owner);
    OthersIn(f.acl, f.owner);
    ReverseIn(es);
    OthersAppend(Reverse(es), [Access(f.owner, 'W')], f.owner);
    assert Others([Access(f.owner, 'W')], f.owner) == [];
    hide Others, Reverse;
    OthersAll(Reverse(es), f.owner);
  }

  /** What a load gives back can be saved again. */
  lemma ReloadSaveable(f: FileRec)
    requires Saveable(f)
    ensures Saveable(Reload(f, true)) && Reload(f, true).server == f.server
  {
    hide Others, Reverse, EntriesText, IntText;
    var es := Others(f.acl, f.owner);
    OthersIn(f.acl, f.owner);
    ReverseIn(es);
    OthersReloaded(f);
    EntriesTextReverse(es);
  }

  /** Two rounds of saving and loading restore the order of the files that come back exactly, and every list of their
      non-owners. */
  lemma TwoRounds(files: seq<FileRec>, servers: seq<Server>)
    requires NamesDistinct(files) && forall f :: f in files ==> Saveable(f)
    ensures var known, again := Known(files, servers), LoadSaved(LoadSaved(files, servers, true), servers, true);
      && |again| == |known|
      && forall i :: 0 <= i < |known| ==> again[i] == known[i].(
        isDirectory := false, pending := [],
          acl := Others(known[i].acl, known[i].owner) + [Access(known[i].owner, 'W')])
  {
    hide Saveable, LoadSaved, Reverse, Reload, Others, NamesDistinct, Known;
    SaveThenLoad(files, servers, true);
    KnownFacts(files, servers);
    var known, once := Known(files, servers), LoadSaved(files, servers, true);
    forall i | 0 <= i < |known|
      ensures once[i] == Reload(known[|known| - 1 - i], true) && Saveable(once[i]) && once[i].server in servers
    {
      ReverseAt(ReloadAll(known, true), i);
      ReloadSaveable(known[|known| - 1 - i]);
    }
    SaveThenLoad(once, servers, true);
    KnownFacts(once, servers);
    var again := LoadSaved(once, servers, true);
    forall i | 0 <= i < |known| ensures again[i] == known[i].(
      isDirectory := false, pending := [], acl := Others(known[i].acl, known[i].owner) + [Access(known[i].owner, 'W')])
    {
      ReverseAt(ReloadAll(once, true), i);
      ReloadTwice(known[i]);
    }
  }

  lemma ReloadTwice(f: FileRec)
    ensures Reload(Reload(f, true), true)
      == f.(isDirectory := false, pending := [], acl := Others(f.acl, f.owner) + [Access(f.owner, 'W')])
  {
    hide Others, Reverse;
    OthersReloaded(f);
    ReverseTwice(Others(f.acl, f.owner));
  }

  // ---- What survives ----

  /** With two cursors no permission is lost or gained. */
  lemma RepairedKeepsPermissions(f: FileRec, user: string, perm: char)
    ensures CheckPermission(Reload(f, true), user, perm) <==> CheckPermission(f, user, perm)
  {
    hide Others, Reverse;
    OthersIn(f.acl, f.owner);
    var es := Others(f.acl, f.owner);
    ReverseIn(es);
    var acl := Reload(f, true).acl;
    assert forall a :: a in acl <==> a in Reverse(es) || a == Access(f.owner, 'W');
  }

  lemma ReverseIn<T>(s: seq<T>)
    ensures forall x :: x in Reverse(s) <==> x in s
  {
    forall i | 0 <= i < |s| ensures Reverse(s)[i] in s && s[i] in Reverse(s) {
      ReverseAt(s, i);
      ReverseAt(s, |s| - 1 - i);
    }
  }

  /** As written every permission survives exactly when at most one user besides the owner has an entry. */
  lemma AsWrittenKeepsPermissions(f: FileRec)
    requires AclDistinct(f.acl)
    ensures (forall user, perm :: CheckPermission(Reload(f, false), user, perm) <==> CheckPermission(f, user, perm))
            <==> |Others(f.acl, f.owner)| <= 1
  {
    hide Reverse, Others;
    var es := Others(f.acl, f.owner);
    OthersIn(f.acl, f.owner);
    ReverseIn(Kept(es, false));
    var acl := Reload(f, false).acl;
    assert forall a :: a in acl <==> a in Kept(es, false) || a == Access(f.owner, 'W');
    if |es| > 1 {
      OthersDistinct(f.acl, f.owner);
      assert es[1] in es && es[0] in es;
      assert CheckPermission(f, es[1].user, es[1].perm);
      assert !CheckPermission(Reload(f, false), es[1].user, es[1].perm);
    }
  }

  lemma {:induction false} OthersDistinct(acl: seq<Access>, owner: string)
    requires AclDistinct(acl)
    ensures AclDistinct(Others(acl, owner))
  {
    if acl != [] {
      assert AclDistinct(acl[1..]);
      OthersDistinct(acl[1..], owner);
      OthersIn(acl[1..], owner);
      var es := Others(acl[1..], owner);
      assert forall a :: a in acl[1..] ==> a.user != acl[0].user;
      assert forall i :: 0 <= i < |es| ==> es[i] in es;
    }
  }

  // ---- The formats, as the C library reads them ----

  /** "user,permission" for each entry. */
  function EntryTexts(es: seq<Access>): seq<string> {
    seq(|es|, i requires 0 <= i < |es| => es[i].user + "," + [es[i].perm])
  }

  lemma EntryTextsCons(es: seq<Access>)
    requires es != []
    ensures EntryTexts(es) == [EntryText(es[0])] + EntryTexts(es[1..])
  {
  }

  lemma TokensCons(w: string, rest: string)
    requires Word(w, SEMI)
    ensures Tokens(w + [';'] + rest, SEMI) == [w] + Tokens(rest, SEMI)
    ensures Tokens(w, SEMI) == [w] && Tokens([], SEMI) == []
  {
    hide Token, AfterToken;
    TokenOfPrefix(w, ';', rest, SEMI);
    TokenOfWhole(w, SEMI);
    NoToken();
  }

  lemma {:induction false} EntryTokens(es: seq<Access>)
    requires forall a :: a in es ==> EntryClean(a)
    ensures Tokens(Body(es), SEMI) == EntryTexts(es)
  {
    hide Tokens, EntryText, Body;
    if es == [] {
      BodyEmpty();
      TokensCons("x", []);
    } else {
      var w := EntryText(es[0]);
      EntryParses(es[0]);
      BodyStep(es);
      EntryTextsCons(es);
      EntryTokens(es[1..]);
      if |es| == 1 {
        TokensCons(w, []);
        assert EntryTexts(es[1..]) == [];
      } else {
        TokensCons(w, Body(es[1..]));
      }
    }
  }

  /** A saved line is name, owner, address, port and one "user,permission" for each entry of a user who is not the
      owner, between semicolons. */
  lemma SavedLine(f: FileRec)
    requires Saveable(f)
    ensures Tokens(MetaLine(f), {';'})
      == [f.name, f.owner, f.server.ip, IntText(f.server.port)] + EntryTexts(Others(f.acl, f.owner))
    ensures forall a :: a in Others(f.acl, f.owner) <==> a in f.acl && a.user != f.owner
  {
    hide Tokens, Token, AfterToken, EntriesText, Others, IntText, Body, EntryTexts;
    var es := Others(f.acl, f.owner);
    var port := IntText(f.server.port);
    IntTextValue(f.server.port);
    FourFields(f.name, f.owner, f.server.ip, port, es);
    OthersIn(f.acl, f.owner);
    EntryTokens(es);
    TokensStep(MetaLine(f));
    var r1 := AfterToken(MetaLine(f), SEMI);
    TokensStep(r1);
    var r2 := AfterToken(r1, SEMI);
    TokensStep(r2);
    TokensStep(AfterToken(r2, SEMI));
    assert [f.name] + ([f.owner] + ([f.server.ip] + ([port] + EntryTexts(es))))
      == [f.name, f.owner, f.server.ip, port] + EntryTexts(es);
  }

  lemma TokensStep(s: string)
    requires Token(s, SEMI).Some?
    ensures Tokens(s, SEMI) == [Token(s, SEMI).value] + Tokens(AfterToken(s, SEMI), SEMI)
  {
    hide Token, AfterToken;
  }

  /** The port is saved in decimal. */
  lemma DecimalText()
    ensures IntText(9001) == "9001" && IntText(-120) == "-120" && IntText(0) == "0"
  {
    assert NatText(9) == "9" && NatText(90) == "90" && NatText(900) == "900" && NatText(9001) == "9001";
    assert NatText(1) == "1" && NatText(12) == "12" && NatText(120) == "120";
  }

  /** A saved note is the file's name and the note behind one semicolon. */
  lemma SavedNote(f: FileRec)
    requires Saveable(f)
    ensures Token(NoteLine(f), {';'}) == Some(f.name) && AfterToken(NoteLine(f), {';'}) == f.note
  {
    hide Token, AfterToken;
    assert NoteLine(f) == f.name + [';'] + f.note;
    TokenOfPrefix(f.name, ';', f.note, SEMI);
  }

  /** The file of users has one name a line. */
  lemma {:induction false} SavedUsers(users: seq<User>)
    requires forall u :: u in users ==> Word(u.name, {'\n'}) && |u.name| + 1 < 2048
    ensures |Lines(UserText(users))| == |users|
    ensures forall i :: 0 <= i < |users| ==> Lines(UserText(users))[i] == users[i].name
  {
    hide Lines;
    if users == [] {
      NoLines();
    } else {
      LineFirst(users[0].name, UserText(users[1..]));
      SavedUsers(users[1..]);
    }
  }

  lemma {:induction false} ReloadUsersAt(users: seq<User>)
    ensures |ReloadUsers(users)| == |users|
    ensures forall i :: 0 <= i < |users| ==> ReloadUsers(users)[i] == User(users[|users| - 1 - i].name, "0.0.0.0")
  {
    if users != [] { ReloadUsersAt(users[1..]); }
  }

  /** So after a load the users are back in reverse order, at the address 0.0.0.0. */
  lemma UsersReloaded(users: seq<User>)
    requires forall u :: u in users ==> Word(u.name, {'\n'}) && |u.name| + 1 < 2048
    ensures var loaded := LoadUsers([], Lines(UserText(users)));
      && |loaded| == |users|
      && forall i :: 0 <= i < |users| ==> loaded[i] == User(users[|users| - 1 - i].name, "0.0.0.0")
  {
    hide Lines, ReloadUsers, LoadUsers;
    UsersLoad([], users);
    ReloadUsersAt(users);
    assert ReloadUsers(users) + [] == ReloadUsers(users);
  }

  /** A line of 2047 characters or more is read in pieces. */
  lemma LongLine(text: string)
    requires |text| >= 2047 && NoneIn(text[..2047], {'\n'})
    ensures Lines(text) == [text[..2047]] + Lines(text[2047..])
  {
    var line := text[..2047];
    forall i | 0 <= i < 2047 ensures text[i] !in NEWLINE { assert line[i] in line; }
    assert CSpan(text, NEWLINE) >= 2047;
    assert LineLen(text) == 2047;
    CSpanIs(line, NEWLINE, 2047);
    assert line[..2047] == line;
  }

  /** What comes back of one file, with the nested scan as written: at most one entry beside the owner's. */
  lemma ReloadIs(f: FileRec)
    ensures var g, es := Reload(f, false), Others(f.acl, f.owner);
      && g == f.(isDirectory := false, pending := [], acl := g.acl)
      && g.acl == (if es == [] then [] else [es[0]]) + [Access(f.owner, 'W')]
  {
    hide Others;
    var es := Others(f.acl, f.owner);
    if es != [] { ReverseOne(es[0]); }
  }

  lemma ReverseOne<T>(x: T)
    ensures Reverse([x]) == [x]
  {
  }
}
