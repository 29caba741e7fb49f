/** The metadata files: a delimiter-separated printer, and the strtok-based parser that reads them back. */
module Persistence {
  import opened Text
  import opened Metadata

  const LINE_BUFFER := 2048
  const SEMI: set<char> := {';'}
  const COMMA: set<char> := {','}
  const NEWLINE: set<char> := {'\n'}

  // ---- Numbers ----

  const DIGITS: set<char> := {'0', '1', '2', '3', '4', '5', '6', '7', '8', '9'}

  const SPACES: set<char> := {' ', '\t', '\n', '\r'}

  function Digit(d: nat): char
    requires d < 10
  {
    ['0', '1', '2', '3', '4', '5', '6', '7', '8', '9'][d]
  }

  function NatText(n: nat): string {
    if n < 10 then [Digit(n)] else NatText(n / 10) + [Digit(n % 10)]
  }

  /** What %d prints. */
  function IntText(n: int): string { if n < 0 then ['-'] + NatText(-n) else NatText(n) }

  function Value(s: string): nat {
    if s == [] then 0
    else 10 * Value(s[..|s| - 1]) + (if '0' <= s[|s| - 1] <= '9' then s[|s| - 1] as int - '0' as int else 0)
  }

  /** atoi: blanks, a sign, then as many digits as there are. */
  function Atoi(s: string): int {
    var t := Strip(s, SPACES);
    if t != [] && t[0] == '-' then -(Value(t[1..][..Span(t[1..], DIGITS)]) as int)
    else if t != [] && t[0] == '+' then Value(t[1..][..Span(t[1..], DIGITS)])
    else Value(t[..Span(t, DIGITS)])
  }

  lemma {:induction false} NatTextValue(n: nat)
    ensures NatText(n) != [] && AllIn(NatText(n), DIGITS) && Value(NatText(n)) == n
  {
    if n >= 10 {
      NatTextValue(n / 10);
      var t := NatText(n);
      assert t[..|t| - 1] == NatText(n / 10) && t[|t| - 1] == Digit(n % 10);
    } else {
      assert NatText(n)[..0] == [];
    }
  }

  lemma AllDigits(t: string)
    requires AllIn(t, DIGITS)
    ensures t[..Span(t, DIGITS)] == t
  {
    assert forall i :: 0 <= i < |t| ==> t[i] in t;
    SpanIs(t, DIGITS, |t|);
  }

  lemma NatAtoi(t: string)
    requires t != [] && AllIn(t, DIGITS)
    ensures Atoi(t) == Value(t) && Atoi(['-'] + t) == -(Value(t) as int)
  {
    hide Value;
    AllDigits(t);
    assert t[0] in t;
    SpanIs(t, SPACES, 0);
    SpanIs(['-'] + t, SPACES, 0);
    assert (['-'] + t)[1..] == t;
  }

  lemma IntTextValue(n: int)
    ensures Atoi(IntText(n)) == n
    ensures IntText(n) != [] && NoneIn(IntText(n), SEMI) && NoneIn(IntText(n), NEWLINE)
  {
    hide NatText, Value, Atoi;
    var m := if n < 0 then -n else n;
    NatTextValue(m);
    NatAtoi(NatText(m));
  }

  // ---- Printing ----

  function EntryText(a: Access): string { a.user + "," + [a.perm] }

  /** The entries save_metadata keeps: the owner's is implicit. */
  function Others(acl: seq<Access>, owner: string): seq<Access> {
    if acl == [] then []
    else (if acl[0].user != owner then [acl[0]] else []) + Others(acl[1..], owner)
  }

  function EntriesText(es: seq<Access>): string {
    if es == [] then [] else ";" + EntryText(es[0]) + EntriesText(es[1..])
  }

  function MetaLine(f: FileRec): string {
    f.name + ";" + f.owner + ";" + f.server.ip + ";" + IntText(f.server.port) + EntriesText(Others(f.acl, f.owner))
  }

  function NoteLine(f: FileRec): string { f.name + ";" + f.note }

  function MetaText(files: seq<FileRec>): string {
    if files == [] then [] else MetaLine(files[0]) + "\n" + MetaText(files[1..])
  }

  function NoteText(files: seq<FileRec>): string {
    if files == [] then []
    else (if files[0].note != [] then NoteLine(files[0]) + "\n" else []) + NoteText(files[1..])
  }

  function UserText(users: seq<User>): string {
    if users == [] then [] else users[0].name + "\n" + UserText(users[1..])
  }

  /** save_metadata: the three files it writes. */
  method SaveMetadata(files: seq<FileRec>, users: seq<User>)
    returns (userFile: string, metaFile: string, noteFile: string)
    ensures userFile == UserText(users) && metaFile == MetaText(files) && noteFile == NoteText(files)
  {
    userFile := PrintUsers(users);
    metaFile := PrintFiles(files);
    noteFile := PrintNotes(files);
  }

  method PrintUsers(users: seq<User>) returns (text: string)
    ensures text == UserText(users)
  {
    hide UserText;
    text := "";
    var i := 0;
    assert users[0..] == users;
    while i < |users|
      invariant 0 <= i <= |users| && text + UserText(users[i..]) == UserText(users)
    {
      UserTextStep(users, i);
      assert text + ((users[i].name + "\n") + UserText(users[i + 1..]))
        == text + users[i].name + "\n" + UserText(users[i + 1..]);
      text := text + users[i].name + "\n";
      i := i + 1;
    }
    UserTextStep(users, i);
  }

  lemma UserTextStep(users: seq<User>, i: nat)
    requires i <= |users|
    ensures UserText(users[i..]) == if i < |users| then (users[i].name + "\n") + UserText(users[i + 1..]) else []
  {
    if i < |users| { assert users[i..][1..] == users[i + 1..]; }
  }

  method PrintFiles(files: seq<FileRec>) returns (text: string)
    ensures text == MetaText(files)
  {
    hide MetaLine;
    text := "";
    var i := 0;
    while i < |files|
      invariant 0 <= i <= |files| && text + MetaText(files[i..]) == MetaText(files)
    {
      assert files[i..][1..] == files[i + 1..];
      var line := PrintFile(files[i]);
      text := text + line + "\n";
      i := i + 1;
    }
  }

  method PrintNotes(files: seq<FileRec>) returns (text: string)
    ensures text == NoteText(files)
  {
    hide NoteText;
    text := "";
    var i := 0;
    assert files[0..] == files;
    while i < |files|
      invariant 0 <= i <= |files| && text + NoteText(files[i..]) == NoteText(files)
    {
      NoteTextStep(files, i);
      if |files[i].note| > 0 {
        var line := files[i].name + ";" + files[i].note + "\n";
        assert text + (line + NoteText(files[i + 1..])) == text + line + NoteText(files[i + 1..]);
        text := text + line;
      }
      i := i + 1;
    }
    NoteTextStep(files, i);
  }

  lemma NoteTextStep(files: seq<FileRec>, i: nat)
    requires i <= |files|
    ensures i == |files| ==> NoteText(files[i..]) == []
    ensures i < |files| && files[i].note == [] ==> NoteText(files[i..]) == NoteText(files[i + 1..])
    ensures i < |files| && files[i].note != [] ==>
      NoteText(files[i..]) == (files[i].name + ";" + files[i].note + "\n") + NoteText(files[i + 1..])
  {
    if i < |files| {
      assert files[i..][1..] == files[i + 1..];
      assert [] + NoteText(files[i + 1..]) == NoteText(files[i + 1..]);
    }
  }

  method PrintFile(f: FileRec) returns (line: string)
    ensures line == MetaLine(f)
  {
    hide IntText;
    line := f.name + ";" + f.owner + ";" + f.server.ip + ";" + IntText(f.server.port);
    var entries := PrintEntries(f.acl, f.owner);
    line := line + entries;
  }

  /** The loop over the access list. */
  method PrintEntries(acl: seq<Access>, owner: string) returns (text: string)
    ensures text == EntriesText(Others(acl, owner))
  {
    hide EntryText;
    text := "";
    var i := 0;
    assert acl[0..] == acl;
    while i < |acl|
      invariant 0 <= i <= |acl|
      invariant text + EntriesText(Others(acl[i..], owner)) == EntriesText(Others(acl, owner))
    {
      var a := acl[i];
      assert acl[i..][1..] == acl[i + 1..];
      ghost var rest := Others(acl[i + 1..], owner);
      if a.user != owner {
        assert ([a] + rest)[1..] == rest;
        text := text + (";" + EntryText(a));
      } else {
        assert [] + rest == rest;
      }
      i := i + 1;
    }
  }

  // ---- Reading lines ----

  /** What fgets returns into a buffer of the given size: up to and including the first newline. */
  function LineLen(text: string): (n: nat)
    ensures n <= |text| && (text != [] ==> n > 0)
  {
    var k := CSpan(text, NEWLINE);
    var n := if k < |text| then k + 1 else k;
    if n > LINE_BUFFER - 1 then LINE_BUFFER - 1 else n
  }

  function Chomp(line: string): string { line[..CSpan(line, NEWLINE)] }

  /** The lines the loading loops see, newlines removed. */
  function Lines(text: string): seq<string>
    decreases |text|
  {
    if text == [] then [] else [Chomp(text[..LineLen(text)])] + Lines(text[LineLen(text)..])
  }

  class TextFile {
    var rest: string

    constructor (text: string)
      ensures rest == text
    {
      rest := text;
    }

    method Fgets() returns (line: Option<string>)
      modifies this
      ensures old(rest) == [] ==> line == None && rest == []
      ensures old(rest) != [] ==>
        line == Some(old(rest)[..LineLen(old(rest))]) && rest == old(rest)[LineLen(old(rest))..]
    {
      if rest == [] { return None; }
      var n := LineLen(rest);
      line := Some(rest[..n]);
      rest := rest[n..];
    }
  }

  // ---- Parsing ----

  /** One access token, "user,perm"; a token without both parts is skipped. */
  function ParseEntry(token: string): seq<Access> {
    var user := Token(token, COMMA);
    var perm := Token(AfterToken(token, COMMA), COMMA);
    if user.Some? && perm.Some? then [Access(user.value, perm.value[0])] else []
  }

  /** Where the hidden cursor stands after the two inner strtok calls on an access token. */
  function InnerRest(token: string): (r: string)
    ensures |r| <= |token| && (token != [] ==> |r| < |token|)
  {
    AfterToken(AfterToken(token, COMMA), COMMA)
  }

  /** The access entries read from the rest of a line, in order. With one cursor the outer scan goes on where the
      inner one stopped; with two, where it was. */
  function Entries(rest: string, twoCursors: bool): seq<Access>
    decreases |rest|
  {
    match Token(rest, SEMI)
    case None => []
    case Some(token) =>
      ParseEntry(token) + Entries(if twoCursors then AfterToken(rest, SEMI) else InnerRest(token), twoCursors)
  }

  function Reverse<T>(s: seq<T>): (r: seq<T>)
    ensures |r| == |s|
  {
    if s == [] then [] else Reverse(s[1..]) + [s[0]]
  }

  function FindServer(servers: seq<Server>, ip: string, port: int): Option<Server> {
    if servers == [] then None
    else if servers[0].ip == ip && servers[0].port == port then Some(servers[0])
    else FindServer(servers[1..], ip, port)
  }

  /** One line of file_metadata.dat: None when a field is missing or the server is not registered. */
  function ParseFile(line: string, servers: seq<Server>, twoCursors: bool): Option<FileRec> {
    var name, r1 := Token(line, SEMI), AfterToken(line, SEMI);
    var owner, r2 := Token(r1, SEMI), AfterToken(r1, SEMI);
    var ip, r3 := Token(r2, SEMI), AfterToken(r2, SEMI);
    var port, r4 := Token(r3, SEMI), AfterToken(r3, SEMI);
    if name.None? || owner.None? || ip.None? || port.None? then None
    else
      var server := FindServer(servers, ip.value, Atoi(port.value));
      if server.None? then None
      else
        var acl := Reverse(Entries(r4, twoCursors)) + [Access(owner.value, 'W')];
        Some(FileRec(name.value, owner.value, false, server.value, acl, [], ""))
  }

  /** Each file read goes to the head of the list. */
  function LoadFiles(files: seq<FileRec>, lines: seq<string>, servers: seq<Server>, twoCursors: bool): seq<FileRec>
    decreases |lines|
  {
    if lines == [] then files
    else
      var f := ParseFile(lines[0], servers, twoCursors);
      LoadFiles((if f.Some? then [f.value] else []) + files, lines[1..], servers, twoCursors)
  }

  function SetNote(files: seq<FileRec>, name: string, note: string): seq<FileRec> {
    if files == [] then []
    else if files[0].name == name then [files[0].(note := note)] + files[1..]
    else [files[0]] + SetNote(files[1..], name, note)
  }

  function LoadNote(files: seq<FileRec>, line: string): seq<FileRec> {
    var name := Token(line, SEMI);
    var note := Token(AfterToken(line, SEMI), NEWLINE);
    if name.Some? && note.Some? then SetNote(files, name.value, note.value) else files
  }

  function LoadNotes(files: seq<FileRec>, lines: seq<string>): seq<FileRec>
    decreases |lines|
  {
    if lines == [] then files else LoadNotes(LoadNote(files, lines[0]), lines[1..])
  }

  function LoadUsers(users: seq<User>, lines: seq<string>): seq<User>
    decreases |lines|
  {
    if lines == [] then users
    else LoadUsers((if lines[0] != [] then [User(lines[0], "0.0.0.0")] else []) + users, lines[1..])
  }

  // ---- load_metadata ----

  /** The two strtok calls on one access token. */
  method ReadEntry(inner: Strtok, token: string) returns (es: seq<Access>)
    modifies inner
    ensures es == ParseEntry(token) && |es| <= 1 && inner.rest == InnerRest(token)
  {
    hide Token, AfterToken;
    var user := inner.Start(token, COMMA);
    var perm := inner.Next(COMMA);
    es := if user.Some? && perm.Some? then [Access(user.value, perm.value[0])] else [];
  }

  /** The loop over the access tokens of a line. With twoCursors the inner scan has a cursor of its own. */
  method ReadEntries(scan: Strtok, twoCursors: bool, owner: string) returns (acl: seq<Access>)
    modifies scan
    ensures acl == Reverse(Entries(old(scan.rest), twoCursors)) + [Access(owner, 'W')]
  {
    hide Token, AfterToken, InnerRest, ParseEntry, Reverse;
    acl := [Access(owner, 'W')];
    ghost var goal := Reverse(Entries(scan.rest, twoCursors)) + acl;
    var other := new Strtok();
    var inner := if twoCursors then other else scan;
    ghost var left := scan.rest;
    var token := scan.Next(SEMI);
    while token.Some?
      invariant token == Token(left, SEMI) && scan.rest == AfterToken(left, SEMI)
      invariant inner == (if twoCursors then other else scan) && fresh(other) && other != scan
      invariant Reverse(Entries(left, twoCursors)) + acl == goal
      decreases |left|
    {
      ghost var next := if twoCursors then AfterToken(left, SEMI) else InnerRest(token.value);
      EntriesStep(left, twoCursors, next);
      var es := ReadEntry(inner, token.value);
      assert Reverse(es) == es by { ReverseShort(es); }
      acl := es + acl;
      left := next;
      token := scan.Next(SEMI);
    }
    assert Reverse(Entries(left, twoCursors)) == [] by { ReverseShort<Access>([]); }
  }

  lemma EntriesStep(left: string, twoCursors: bool, next: string)
    requires Token(left, SEMI).Some?
    requires next == if twoCursors then AfterToken(left, SEMI) else InnerRest(Token(left, SEMI).value)
    ensures Reverse(Entries(left, twoCursors))
      == Reverse(Entries(next, twoCursors)) + Reverse(ParseEntry(Token(left, SEMI).value))
    ensures |next| < |left|
  {
    hide Token, AfterToken, InnerRest, ParseEntry, Reverse;
    assert |AfterToken(left, SEMI)| + |Token(left, SEMI).value| <= |left|;
    ReverseAppend(ParseEntry(Token(left, SEMI).value), Entries(next, twoCursors));
  }

  lemma ReverseShort<T>(s: seq<T>)
    requires |s| <= 1
    ensures Reverse(s) == s
  {
  }

  lemma {:induction false} ReverseAppend<T>(a: seq<T>, b: seq<T>)
    ensures Reverse(a + b) == Reverse(b) + Reverse(a)
  {
    if a == [] {
      assert a + b == b;
    } else {
      ReverseAppend(a[1..], b);
      assert (a + b)[1..] == a[1..] + b;
    }
  }

  method ReadFile(line: string, servers: seq<Server>, twoCursors: bool) returns (file: Option<FileRec>)
    ensures file == ParseFile(line, servers, twoCursors)
  {
    hide Token, AfterToken, Atoi, Entries;
    var scan := new Strtok();
    var name := scan.Start(line, SEMI);
    var owner := scan.Next(SEMI);
    var ip := scan.Next(SEMI);
    var port := scan.Next(SEMI);
    if name.None? || owner.None? || ip.None? || port.None? { return None; }
    var server := SearchServer(servers, ip.value, Atoi(port.value));
    if server.None? { return None; }
    var acl := ReadEntries(scan, twoCursors, owner.value);
    file := Some(FileRec(name.value, owner.value, false, server.value, acl, [], ""));
  }

  method SearchServer(servers: seq<Server>, ip: string, port: int) returns (server: Option<Server>)
    ensures server == FindServer(servers, ip, port)
  {
    var i := 0;
    assert servers[0..] == servers;
    while i < |servers|
      invariant 0 <= i <= |servers| && FindServer(servers[i..], ip, port) == FindServer(servers, ip, port)
    {
      if servers[i].ip == ip && servers[i].port == port { return Some(servers[i]); }
      assert servers[i..][1..] == servers[i + 1..];
      i := i + 1;
    }
    server := None;
  }

  /** The line just read and those still to come. */
  ghost function Ahead(line: Option<string>, rest: string): seq<string> {
    if line.Some? then [line.value] + Lines(rest) else []
  }

  method ReadLine(file: TextFile) returns (line: Option<string>)
    modifies file
    ensures Ahead(line, file.rest) == Lines(old(file.rest))
    ensures line.Some? ==> |file.rest| < |old(file.rest)|
  {
    var got := file.Fgets();
    if got.None? { return None; }
    line := Some(got.value[..CSpan(got.value, NEWLINE)]);
  }

  /** load_metadata, with the storage servers given in the list. */
  method LoadMetadata(userText: string, metaText: string, noteText: string, servers: seq<Server>, twoCursors: bool)
    returns (files: seq<FileRec>, users: seq<User>)
    ensures users == LoadUsers([], Lines(userText))
    ensures files == LoadNotes(LoadFiles([], Lines(metaText), servers, twoCursors), Lines(noteText))
  {
    users := ReadUsers(userText);
    files := ReadFiles(metaText, servers, twoCursors);
    files := ReadNotes(noteText, files);
  }

  method ReadUsers(text: string) returns (users: seq<User>)
    ensures users == LoadUsers([], Lines(text))
  {
    hide Lines;
    users := [];
    var file := new TextFile(text);
    var line := ReadLine(file);
    while line.Some?
      invariant fresh(file) && LoadUsers(users, Ahead(line, file.rest)) == LoadUsers([], Lines(text))
      decreases if line.Some? then |file.rest| + 1 else 0
    {
      AheadFacts(line, file.rest);
      if line.value != [] { users := [User(line.value, "0.0.0.0")] + users; } else { assert [] + users == users; }
      line := ReadLine(file);
    }
  }

  lemma AheadFacts(line: Option<string>, rest: string)
    requires line.Some?
    ensures Ahead(line, rest) != [] && Ahead(line, rest)[0] == line.value && Ahead(line, rest)[1..] == Lines(rest)
  {
  }

  method ReadFiles(text: string, servers: seq<Server>, twoCursors: bool) returns (files: seq<FileRec>)
    ensures files == LoadFiles([], Lines(text), servers, twoCursors)
  {
    hide Lines, ParseFile;
    files := [];
    var file := new TextFile(text);
    var line := ReadLine(file);
    while line.Some?
      invariant fresh(file)
      invariant LoadFiles(files, Ahead(line, file.rest), servers, twoCursors)
        == LoadFiles([], Lines(text), servers, twoCursors)
      decreases if line.Some? then |file.rest| + 1 else 0
    {
      AheadFacts(line, file.rest);
      var f := ReadFile(line.value, servers, twoCursors);
      if f.Some? { files := [f.value] + files; } else { assert [] + files == files; }
      line := ReadLine(file);
    }
  }

  method ReadNotes(text: string, loaded: seq<FileRec>) returns (files: seq<FileRec>)
    ensures files == LoadNotes(loaded, Lines(text))
  {
    hide Lines, Token, AfterToken, SetNote;
    files := loaded;
    var file := new TextFile(text);
    var line := ReadLine(file);
    while line.Some?
      invariant fresh(file) && LoadNotes(files, Ahead(line, file.rest)) == LoadNotes(loaded, Lines(text))
      decreases if line.Some? then |file.rest| + 1 else 0
    {
      AheadFacts(line, file.rest);
      var scan := new Strtok();
      var name := scan.Start(line.value, SEMI);
      var note := scan.Next(NEWLINE);
      if name.Some? && note.Some? { files := AttachNote(files, name.value, note.value); }
      line := ReadLine(file);
    }
  }

  method AttachNote(files: seq<FileRec>, name: string, note: string) returns (noted: seq<FileRec>)
    ensures noted == SetNote(files, name, note)
  {
    var i := 0;
    assert files[..0] + SetNote(files[0..], name, note) == SetNote(files, name, note) by { assert files[0..] == files; }
    while i < |files|
      invariant 0 <= i <= |files| && SetNote(files, name, note) == files[..i] + SetNote(files[i..], name, note)
    {
      assert files[i..][1..] == files[i + 1..];
      if files[i].name == name {
        return files[..i] + [files[i].(note := note)] + files[i + 1..];
      }
      assert files[..i + 1] == files[..i] + [files[i]];
      i := i + 1;
    }
    noted := files;
  }
}
