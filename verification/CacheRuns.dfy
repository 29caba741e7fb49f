/** Which names the cache holds after a run of the name server. */
module CacheRuns {
  import opened Recency
  import opened Metadata

  function TouchFrom(cached: seq<string>, names: seq<string>): seq<string>
    decreases |names|
  {
    if names == [] then cached else TouchFrom(Touch(cached, names[0], CACHE_SIZE), names[1..])
  }

  /** The names of a registering server's list that were already known when their turn came. */
  function KnownNames(st: State, server: Server, names: seq<string>): seq<string>
    decreases |names|
  {
    if names == [] then []
    else (if Find(st.files, names[0]).Some? then [names[0]] else [])
         + KnownNames(RegisterName(st, server, names[0]), server, names[1..])
  }

  /** The names a step looks up with success, in order. */
  function Hits(st: State, s: Step): seq<string> {
    match s
    case RegisterUser(_, _) => []
    case RegisterServer(server, names) =>
      if server in st.servers then [] else KnownNames(st.(servers := [server] + st.servers), server, names)
    case _ => if Find(st.files, s.name).Some? then [s.name] else []
  }

  function AllHits(st: State, run: seq<Step>): seq<string> {
    if run == [] then [] else AllHits(st, run[..|run| - 1]) + Hits(After(st, run[..|run| - 1]), run[|run| - 1])
  }

  ghost predicate NoDeletion(st: State, run: seq<Step>) {
    forall i :: 0 <= i < |run| && run[i].Delete? ==>
      !Deletes(After(st, run[..i]), run[i].name, run[i].actor, run[i].acked)
  }

  lemma {:induction false} RegisterTouches(st: State, server: Server, names: seq<string>)
    ensures RegisterNames(st, server, names).cached == TouchFrom(st.cached, KnownNames(st, server, names))
    decreases |names|
  {
    hide Find, Touch;
    if names != [] {
      var st' := RegisterName(st, server, names[0]);
      RegisterTouches(st', server, names[1..]);
      var rest := KnownNames(st', server, names[1..]);
      if Find(st.files, names[0]).Some? {
        assert ([names[0]] + rest)[1..] == rest;
      } else {
        assert [] + rest == rest;
      }
    }
  }

  lemma StepTouches(st: State, s: Step)
    requires s.Delete? ==> !Deletes(st, s.name, s.actor, s.acked)
    ensures Do(st, s).cached == TouchFrom(st.cached, Hits(st, s))
  {
    hide Find, Touch, RegisterNames, KnownNames, KnownUser, SetIp, Alter;
    if s.RegisterServer? {
      RegisterTouches(st.(servers := [s.server] + st.servers), s.server, s.names);
    } else if !s.RegisterUser? && Find(st.files, s.name).Some? {
      assert TouchFrom(st.cached, [s.name]) == TouchFrom(Touch(st.cached, s.name, CACHE_SIZE), []);
    }
  }

  lemma {:induction false} TouchAllFrom(trace: seq<string>, names: seq<string>)
    ensures TouchAll(trace + names, CACHE_SIZE) == TouchFrom(TouchAll(trace, CACHE_SIZE), names)
    decreases |names|
  {
    hide Touch;
    if names == [] {
      assert trace + names == trace;
    } else {
      assert (trace + [names[0]])[..|trace|] == trace;
      assert trace + names == trace + [names[0]] + names[1..];
      TouchAllFrom(trace + [names[0]], names[1..]);
    }
  }

  /** Starting from an empty cache and with nothing deleted, the cache is exactly the last 16 distinct names looked up
      with success, most recent first. */
  lemma {:induction false} CacheOverRuns(st: State, run: seq<Step>)
    requires st.cached == [] && NoDeletion(st, run)
    ensures After(st, run).cached == TouchAll(AllHits(st, run), CACHE_SIZE) == Take(Mru(AllHits(st, run)), 16)
  {
    hide Do, Hits, Touch, Deletes, Mru;
    if run != [] {
      var r := run[..|run| - 1];
      assert forall i :: 0 <= i < |r| ==> r[..i] == run[..i];
      CacheOverRuns(st, r);
      StepTouches(After(st, r), run[|run| - 1]);
      TouchAllFrom(AllHits(st, r), Hits(After(st, r), run[|run| - 1]));
    }
    CacheIsMostRecent(AllHits(st, run), CACHE_SIZE);
  }

  // ---- With deletions ----

  /** Names found and names deleted, in order. */
  datatype Event = Found(name: string) | Gone(name: string)

  function FoundAll(names: seq<string>): seq<Event> {
    if names == [] then [] else [Found(names[0])] + FoundAll(names[1..])
  }

  function Events(st: State, s: Step): seq<Event> {
    FoundAll(Hits(st, s)) + if s.Delete? && Deletes(st, s.name, s.actor, s.acked) then [Gone(s.name)] else []
  }

  function AllEvents(st: State, run: seq<Step>): seq<Event> {
    if run == [] then [] else AllEvents(st, run[..|run| - 1]) + Events(After(st, run[..|run| - 1]), run[|run| - 1])
  }

  /** The names found and not deleted since, the most recently found first. */
  function Live(events: seq<Event>): seq<string> {
    if events == [] then []
    else
      var k, e := |events| - 1, events[|events| - 1];
      (if e.Found? then [e.name] else []) + Drop(Live(events[..k]), e.name)
  }

  /** The names found since the last deletion, in order. */
  function SinceDeletion(events: seq<Event>): seq<string> {
    if events == [] || events[|events| - 1].Gone? then []
    else SinceDeletion(events[..|events| - 1]) + [events[|events| - 1].name]
  }

  /** The cache as the events change it. */
  function Held(events: seq<Event>): seq<string> {
    if events == [] then []
    else
      var c, e := Held(events[..|events| - 1]), events[|events| - 1];
      if e.Found? then Touch(c, e.name, CACHE_SIZE) else Drop(c, e.name)
  }

  lemma HeldSnoc(events: seq<Event>, e: Event)
    ensures Held(events + [e])
      == if e.Found? then Touch(Held(events), e.name, CACHE_SIZE) else Drop(Held(events), e.name)
  {
    hide Touch, Drop;
    assert (events + [e])[..|events|] == events;
  }

  lemma {:induction false} HeldFound(events: seq<Event>, names: seq<string>)
    ensures Held(events + FoundAll(names)) == TouchFrom(Held(events), names)
    decreases |names|
  {
    hide Held, Touch;
    if names == [] {
      assert events + [] == events;
    } else {
      HeldSnoc(events, Found(names[0]));
      HeldFound(events + [Found(names[0])], names[1..]);
      assert events + FoundAll(names) == events + [Found(names[0])] + FoundAll(names[1..]);
    }
  }

  lemma StepHolds(st: State, s: Step, events: seq<Event>)
    requires st.cached == Held(events)
    ensures Do(st, s).cached == Held(events + Events(st, s))
  {
    hide Find, Touch, Drop, DropFile, RegisterNames, Held, Hits, TouchFrom, FoundAll;
    var found := FoundAll(Hits(st, s));
    HeldFound(events, Hits(st, s));
    if s.Delete? && Deletes(st, s.name, s.actor, s.acked) {
      HeldSnoc(events + found, Gone(s.name));
      assert events + (found + [Gone(s.name)]) == events + found + [Gone(s.name)];
      DeletionFinds(st, s);
    } else {
      StepTouches(st, s);
      assert found + [] == found;
    }
  }

  lemma DeletionFinds(st: State, s: Step)
    requires s.Delete? && Deletes(st, s.name, s.actor, s.acked)
    ensures TouchFrom(st.cached, Hits(st, s)) == Touch(st.cached, s.name, CACHE_SIZE)
    ensures Do(st, s).cached == Drop(Touch(st.cached, s.name, CACHE_SIZE), s.name)
  {
    hide Find, Touch, Drop, DropFile;
    assert Hits(st, s) == [s.name];
    assert TouchFrom(st.cached, [s.name]) == TouchFrom(Touch(st.cached, s.name, CACHE_SIZE), []);
  }

  lemma {:induction false} RunHolds(st: State, run: seq<Step>)
    requires st.cached == []
    ensures After(st, run).cached == Held(AllEvents(st, run))
  {
    hide Do, Events, Held;
    if run == [] {
      assert Held([]) == [] by { HeldNothing(); }
    } else {
      var r := run[..|run| - 1];
      RunHolds(st, r);
      StepHolds(After(st, r), run[|run| - 1], AllEvents(st, r));
    }
  }

  lemma HeldNothing()
    ensures Held([]) == []
  {
  }

  /** A lookup keeps a prefix of the ideal list a prefix of it. */
  lemma TouchPrefix(c: seq<string>, m: seq<string>, k: string)
    requires c <= m && |c| <= CACHE_SIZE
    ensures Touch(c, k, CACHE_SIZE) <= [k] + Drop(m, k) && |Touch(c, k, CACHE_SIZE)| <= CACHE_SIZE
    ensures Drop(c, k) <= Drop(m, k) && |Drop(c, k)| <= |c|
  {
    hide Drop;
    var rest := m[|c|..];
    assert m == c + rest;
    DropAppend(c, rest, k);
    DropFacts(c, k);
    if k in c { DropLess(c, k); }
  }

  lemma {:induction false} DropLess(c: seq<string>, k: string)
    requires k in c
    ensures |Drop(c, k)| < |c|
  {
    DropFacts(c[1..], k);
    if c[0] != k { DropLess(c[1..], k); }
  }

  /** A lookup keeps what the ideal cache of recent names holds in front. */
  lemma TouchCovers(recent: seq<string>, c: seq<string>, k: string)
    requires Distinct(recent) && Take(recent, CACHE_SIZE) <= c && |c| <= CACHE_SIZE
    ensures Take([k] + Drop(recent, k), CACHE_SIZE) <= Touch(c, k, CACHE_SIZE)
  {
    hide Drop;
    if |recent| >= CACHE_SIZE {
      assert c == Take(recent, CACHE_SIZE);
      TouchTake(recent, k, CACHE_SIZE);
    } else {
      var rest := c[|recent|..];
      assert c == recent + rest;
      DropAppend(recent, rest, k);
      DropFacts(recent, k);
      if k !in c { assert Drop(recent, k) == recent; }
    }
  }

  lemma {:induction false} HeldBounds(events: seq<Event>)
    ensures Held(events) <= Live(events) && |Held(events)| <= CACHE_SIZE
    ensures Take(Mru(SinceDeletion(events)), CACHE_SIZE) <= Held(events)
  {
    hide Touch, Drop;
    if events != [] {
      var before, e := events[..|events| - 1], events[|events| - 1];
      HeldBounds(before);
      TouchPrefix(Held(before), Live(before), e.name);
      if e.Found? {
        var recent := SinceDeletion(before);
        MruFacts(recent);
        assert (recent + [e.name])[..|recent|] == recent;
        TouchCovers(Mru(recent), Held(before), e.name);
      } else {
        assert [] + Drop(Live(before), e.name) == Drop(Live(before), e.name);
      }
    }
  }

  /** With deletions too the cache is the front part of the list of the names found and not deleted since, the most
      recently found first; and at least the last 16 distinct names found since the last deletion are in it. */
  lemma CacheWithDeletions(st: State, run: seq<Step>)
    requires st.cached == []
    ensures var cached, events := After(st, run).cached, AllEvents(st, run);
      && Take(Mru(SinceDeletion(events)), 16) <= cached <= Live(events)
      && |cached| <= 16
  {
    hide Mru, SinceDeletion, Live, Held, AllEvents;
    RunHolds(st, run);
    HeldBounds(AllEvents(st, run));
  }
}
