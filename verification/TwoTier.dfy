/** Create and delete across the two tiers: metadata on the name server, files on its one storage server. */
module TwoTier {
  import opened Metadata
  import AccessControl
  import F = FileStore

  /** awaiting: creates whose metadata is in place and whose storage server call has not been made yet. */
  datatype World = World(ns: State, disk: F.Disk, awaiting: multiset<string>)

  datatype Event =
    | CreateMeta(name: string, actor: string)             // handle_create up to the unlock
    | CreateFile(name: string)                            // SS_CREATE arrives
    | CreateLost(name: string)                            // the storage server was not reached
    | DeleteBoth(name: string, actor: string, reached: bool, replied: bool)  // handle_delete, under the lock throughout

  predicate Enabled(w: World, e: Event) {
    match e
    case CreateFile(name) => name in w.awaiting
    case CreateLost(name) => name in w.awaiting
    case _ => true
  }

  function Next(w: World, e: Event): World
    requires Enabled(w, e)
  {
    match e
    case CreateMeta(name, actor) =>
      World(Do(w.ns, Create(name, actor)), w.disk,
            if AccessControl.Makes(w.ns, name) then w.awaiting + multiset{name} else w.awaiting)
    case CreateFile(name) => World(w.ns, F.Exec(w.disk, F.Create(name)).0, w.awaiting - multiset{name})
    case CreateLost(name) => w.(awaiting := w.awaiting - multiset{name})
    case DeleteBoth(name, actor, reached, replied) =>
      if AccessControl.Owns(w.ns, name, actor) && reached then
        var (disk, ok) := F.Exec(w.disk, F.Delete(name));
        World(Do(w.ns, Delete(name, actor, ok && replied)), disk, w.awaiting)
      else w.(ns := Do(w.ns, Delete(name, actor, false)))
  }

  predicate Listed(w: World, name: string) { Find(w.ns.files, name).Some? }

  /** A physical file has metadata. */
  ghost predicate Accounted(w: World, path: string) { exists n :: path == F.Live(n) && Listed(w, n) }

  /** A create awaiting its storage server call has metadata, no file yet, and no rival. */
  ghost predicate Clear(w: World, name: string) {
    Listed(w, name) && F.Live(name) !in w.disk && w.awaiting[name] == 1
  }

  ghost predicate InStep(w: World) {
    && Inv(w.ns) && "" !in w.disk
    && (forall p :: p in w.disk ==> Accounted(w, p))
    && (forall n :: n in w.awaiting ==> Clear(w, n))
  }

  lemma LiveDiffers(m: string, n: string)
    requires F.Live(m) == F.Live(n) && F.Live(m) != ""
    ensures m == n
  {
    F.PrefixCut(F.ROOT, m, n);
  }

  lemma CreateKeeps(w: World, name: string, actor: string)
    requires InStep(w)
    ensures InStep(Next(w, CreateMeta(name, actor)))
  {
    hide F.Live, F.HasDotDot, Find, Inv;
    var w' := Next(w, CreateMeta(name, actor));
    StepKeeps(w.ns, Create(name, actor));
    var makes := AccessControl.Makes(w.ns, name);
    forall n ensures Listed(w', n) <==> Listed(w, n) || (makes && n == name) {
      if makes {
        AccessControl.PermAdded(w.ns, NewFile(name, actor, false, w.ns.servers[0]), n, actor);
        FindFacts(w'.ns.files, name);
      }
    }
    forall p | p in w'.disk ensures Accounted(w', p) {
      var n :| p == F.Live(n) && Listed(w, n);
      assert Listed(w', n);
    }
    forall n | n in w'.awaiting ensures Clear(w', n) {
      if n == name && makes {
        assert name !in w.awaiting;
        if F.Live(name) in w.disk {
          assert Accounted(w, F.Live(name));
          var m :| F.Live(name) == F.Live(m) && Listed(w, m);
          LiveDiffers(m, name);
        }
      } else {
        assert Clear(w, n);
      }
    }
  }

  lemma FileKeeps(w: World, name: string)
    requires InStep(w) && name in w.awaiting
    ensures InStep(Next(w, CreateFile(name)))
  {
    hide F.Live, F.HasDotDot, Find, Inv;
    var w' := Next(w, CreateFile(name));
    assert Clear(w, name);
    forall p | p in w'.disk ensures Accounted(w', p) {
      if p in w.disk {
        var n :| p == F.Live(n) && Listed(w, n);
        assert Listed(w', n);
      } else {
        assert p == F.Live(name) && Listed(w', name);
      }
    }
    forall n | n in w'.awaiting ensures Clear(w', n) {
      assert Clear(w, n) && n != name;
      if F.Live(n) == F.Live(name) && F.Live(name) != "" { LiveDiffers(n, name); }
    }
  }

  lemma DeleteKeeps(w: World, name: string, actor: string, reached: bool, replied: bool)
    requires InStep(w)
    ensures InStep(Next(w, DeleteBoth(name, actor, reached, replied)))
  {
    hide F.Live, F.HasDotDot, Find, Inv, Do;
    var w' := Next(w, DeleteBoth(name, actor, reached, replied));
    var acked := reached && replied && AccessControl.Owns(w.ns, name, actor) && F.Live(name) in w.disk;
    assert w'.ns == Do(w.ns, Delete(name, actor, acked));
    StepKeeps(w.ns, Delete(name, actor, acked));
    assert w'.disk == w.disk || w'.disk == w.disk - {F.Live(name)};
    forall n ensures Listed(w', n) <==> Listed(w, n) && !(acked && n == name) {
      DeletedFind(w.ns, name, actor, acked, n);
    }
    forall p | p in w'.disk ensures Accounted(w', p) {
      assert Accounted(w, p);
      var n :| p == F.Live(n) && Listed(w, n);
      assert acked ==> p != F.Live(name);
      assert Listed(w', n);
    }
    forall n | n in w'.awaiting ensures Clear(w', n) {
      assert Clear(w, n);
    }
  }

  lemma DeletedFind(st: State, name: string, actor: string, acked: bool, n: string)
    requires Inv(st)
    ensures Find(Do(st, Delete(name, actor, acked)).files, n).Some?
      <==> Find(st.files, n).Some? && !(acked && AccessControl.Owns(st, name, actor) && n == name)
  {
    hide Find;
    AccessControl.PermDropped(st.files, name, n);
  }

  lemma LostKeeps(w: World, name: string)
    requires InStep(w) && name in w.awaiting
    ensures InStep(Next(w, CreateLost(name)))
  {
    hide F.Live, Find, Inv;
    var w' := Next(w, CreateLost(name));
    forall p | p in w'.disk ensures Accounted(w', p) {
      var n :| p == F.Live(n) && Listed(w, n);
      assert Listed(w', n);
    }
    forall n | n in w'.awaiting ensures Clear(w', n) { assert Clear(w, n) && Clear(w, name); }
  }

  /** Under any interleaving of creates and (repaired) deletes the two tiers stay in step. */
  lemma EventKeeps(w: World, e: Event)
    requires InStep(w) && Enabled(w, e)
    ensures InStep(Next(w, e))
  {
    hide InStep, Next;
    match e
    case CreateMeta(name, actor) => CreateKeeps(w, name, actor);
    case CreateFile(name) => FileKeeps(w, name);
    case CreateLost(name) => LostKeeps(w, name);
    case DeleteBoth(name, actor, reached, replied) => DeleteKeeps(w, name, actor, reached, replied);
  }

  predicate Happens(w: World, es: seq<Event>)
    decreases |es|, 0
  {
    es == [] || (Happens(w, es[..|es| - 1]) && Enabled(Then(w, es[..|es| - 1]), es[|es| - 1]))
  }

  function Then(w: World, es: seq<Event>): World
    requires Happens(w, es)
    decreases |es|, 1
  {
    if es == [] then w else Next(Then(w, es[..|es| - 1]), es[|es| - 1])
  }

  lemma {:induction false} RunKeepsStep(w: World, es: seq<Event>)
    requires InStep(w) && Happens(w, es)
    ensures InStep(Then(w, es))
    decreases |es|
  {
    hide InStep, Enabled, Next;
    if es != [] {
      RunKeepsStep(w, es[..|es| - 1]);
      EventKeeps(Then(w, es[..|es| - 1]), es[|es| - 1]);
    }
  }

  /** A delete that reaches the storage server and is answered removes both or, with no physical file, neither. */
  lemma DeleteIsBothOrNeither(w: World, name: string, actor: string)
    requires InStep(w) && AccessControl.Owns(w.ns, name, actor)
    ensures var w' := Next(w, DeleteBoth(name, actor, true, true));
      if F.Live(name) in w.disk then !Listed(w', name) && F.Live(name) !in w'.disk
      else Listed(w', name) && w'.disk == w.disk
  {
    hide F.Live, F.HasDotDot, Find, Inv;
    assert NamesDistinct(w.ns.files) by { AccessControl.NamesOf(w.ns); }
    AccessControl.PermDropped(w.ns.files, name, name);
  }
}
