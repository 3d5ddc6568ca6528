/** The incremental build cache: which compiled objects survive a new build.  File contents stand
    for their own hashes, so the hash is collision free here.
 */
module BuildState {
  import opened Basics

  type Text = string

  /** A file under the project root, or one outside it. */
  datatype Name = Local(path: string) | Foreign(path: string)

  /** A compiled object with its dependency list; an unusable dependency file is an empty list. */
  datatype Obj = Obj(content: Text, deps: seq<Name>)

  /** Everything a compile can depend on. */
  datatype World = World(
    files: map<Name, Text>,     // the tracked source trees
    graph: map<string, Text>,   // build description and scripts
    external: map<Name, Text>,  // files outside the root
    configuration: Text)        // toolchain and environment identity

  /** A receipt or a pending checkpoint. */
  datatype State = State(
    configuration: Text,
    files: map<Name, Text>,
    graph: map<string, Text>,
    external: map<Name, Option<Text>>,
    objects: map<string, Obj>,
    generated: Option<map<string, Text>>,
    links: Option<map<string, Text>>)

  /** The build directory. */
  datatype Disk = Disk(
    objects: map<string, Obj>,
    generated: map<string, Text>,
    links: map<string, Text>,
    pending: Option<State>,
    receipt: Option<State>)

  const MAKEFILE := "Makefile"
  const OUTPUT := "Release/mom.node"

  function Lookup<K, V>(m: map<K, V>, k: K): Option<V> {
    if k in m then Some(m[k]) else None
  }

  function Read(w: World, n: Name): Option<Text> {
    if n.Local? then Lookup(w.files, n) else Lookup(w.external, n)
  }

  // ---------- prepare and finish, as functions of the directory ----------

  function ForeignDeps(objects: map<string, Obj>): set<Name> {
    set o, n | o in objects && n in objects[o].deps && n.Foreign? :: n
  }

  function ExternalHashes(objects: map<string, Obj>, w: World): map<Name, Option<Text>> {
    map n | n in ForeignDeps(objects) :: Lookup(w.external, n)
  }

  /** Names whose recorded content is not the current one. */
  function Differing<V(==)>(before: map<Name, V>, now: map<Name, V>): set<Name> {
    set n | n in before.Keys + now.Keys && Lookup(before, n) != Lookup(now, n)
  }

  predicate Keeps(prior: State, sameFiles: bool, changed: set<Name>, key: string, obj: Obj) {
    sameFiles && Lookup(prior.objects, key) == Some(obj) && forall n :: n in obj.deps ==> n !in changed
  }

  predicate NeedsClean(d: Disk, w: World, force: bool, prior: Option<State>) {
    || force
    || prior.None?
    || prior.value.configuration != w.configuration
    || prior.value.graph != w.graph
    || (prior.value.generated.Some? && prior.value.generated.value != d.generated)
    || MAKEFILE !in d.generated
    || exists o :: o in d.objects && d.objects[o].deps == []
  }

  function Prior(d: Disk): Option<State> {
    if d.pending.Some? then d.pending else d.receipt
  }

  function Kept(objects: map<string, Obj>, prior: State, sameFiles: bool, changed: set<Name>): map<string, Obj> {
    map o | o in objects && Keeps(prior, sameFiles, changed, o, objects[o]) :: objects[o]
  }

  /** Names whose content is no longer the one that the prior state recorded. */
  function Changed(prior: State, w: World, external: map<Name, Option<Text>>): set<Name> {
    Differing(prior.files, w.files) + Differing(prior.external, external)
  }

  function Survivors(objects: map<string, Obj>, prior: State, w: World): map<string, Obj> {
    Kept(objects, prior, prior.files.Keys == w.files.Keys, Changed(prior, w, ExternalHashes(objects, w)))
  }

  function Checkpoint(w: World, external: map<Name, Option<Text>>, objects: map<string, Obj>): State {
    State(w.configuration, w.files, w.graph, external, objects, None, None)
  }

  /** The incremental branch: what stays of objects, generated files and links. */
  function Pruned(d: Disk, w: World, prior: State): Disk {
    var kept := Survivors(d.objects, prior, w);
    var relink := d.pending.Some? || OUTPUT !in d.links || prior.links != Some(d.links) || kept != d.objects;
    d.(objects := kept,
       generated := if prior.files.Keys != w.files.Keys then d.generated - {MAKEFILE} else d.generated,
       links := if relink then map[] else d.links)
  }

  /** The directory after prepare. */
  function Prepared(d: Disk, w: World, force: bool): Disk {
    var prior := Prior(d);
    var external := ExternalHashes(d.objects, w);
    if NeedsClean(d, w, force, prior) then
      Disk(map[], map[], map[], Some(Checkpoint(w, external, map[])), None)
    else
      var left := Pruned(d, w, prior.value);
      left.(pending := Some(Checkpoint(w, external, left.objects)))
  }

  /** Whether finish accepts; `late` are the outside files whose status changed after the start. */
  predicate Finishes(d: Disk, w: World, late: set<Name>) {
    && d.pending.Some?
    && OUTPUT in d.links && d.links[OUTPUT] != ""
    && w.files == d.pending.value.files && w.graph == d.pending.value.graph
    && w.configuration == d.pending.value.configuration
    && (forall o :: o in d.objects ==> d.objects[o].deps != [])
    && (forall n :: n in d.pending.value.external ==> Lookup(w.external, n) == d.pending.value.external[n])
    && (forall n :: n in ForeignDeps(d.objects) && n !in d.pending.value.external ==> !(n in w.external && n in late))
  }

  /** The directory after finish. */
  function Finished(d: Disk, w: World): Disk
    requires d.pending.Some?
  {
    d.(receipt := Some(d.pending.value.(external := ExternalHashes(d.objects, w), objects := d.objects,
                                        generated := Some(d.generated), links := Some(d.links))),
       pending := None)
  }

  // ---------- the compiler ----------

  /** The object that a clean compile makes, if the object is part of the build. */
  type Compiler = (World, string) -> Option<Obj>

  /** Same build description, same set of tracked files, same content of all named dependencies. */
  ghost predicate SameFor(v: World, w: World, deps: seq<Name>) {
    && v.configuration == w.configuration && v.graph == w.graph && v.files.Keys == w.files.Keys
    && forall n :: n in deps ==> Read(v, n) == Read(w, n)
  }

  /** Deterministic compiles whose dependency lists are complete and name only files that were
      there to be read: tracked ones, or ones outside the root. */
  ghost predicate Faithful(compile: Compiler) {
    && (forall v, w, o :: compile(v, o).Some? && SameFor(v, w, compile(v, o).value.deps)
          ==> compile(w, o) == compile(v, o))
    && (forall v, o, n :: compile(v, o).Some? && n in compile(v, o).value.deps ==> Read(v, n).Some?)
    && (forall v, o :: compile(v, o).Some? ==> compile(v, o).value.deps != [])
  }

  /** Every object is what a clean compile of this world makes. */
  ghost predicate AllClean(compile: Compiler, objects: map<string, Obj>, w: World) {
    forall o :: o in objects ==> compile(w, o) == Some(objects[o])
  }

  ghost predicate Absent(obj: Obj, w: World) {
    exists n :: n in obj.deps && Read(w, n).None?
  }

  /** Every object is what a clean compile of this world makes; or else, if `gone` lets that pass, it
      names a dependency that this world does not have. */
  ghost predicate Sound(compile: Compiler, gone: bool, objects: map<string, Obj>, w: World) {
    forall o :: o in objects ==> compile(w, o) == Some(objects[o]) || (gone && Absent(objects[o], w))
  }

  /** The recorded objects are sound in the recorded world. */
  ghost predicate BackedBy(compile: Compiler, gone: bool, s: State, w: World) {
    && s.configuration == w.configuration && s.files == w.files && s.graph == w.graph
    && Sound(compile, gone, s.objects, w)
    && (forall n :: n in s.external ==> s.external[n] == Lookup(w.external, n))
    && (forall n :: n in ForeignDeps(s.objects) ==> n in s.external)
  }

  ghost predicate Backed(compile: Compiler, gone: bool, s: State) {
    exists w :: BackedBy(compile, gone, s, w)
  }

  /** A sound object is clean exactly when all its dependencies are there. */
  lemma CleanIffPresent(compile: Compiler, objects: map<string, Obj>, w: World)
    requires Faithful(compile) && Sound(compile, true, objects, w)
    ensures AllClean(compile, objects, w) <==> forall o :: o in objects ==> !Absent(objects[o], w)
  {
    if AllClean(compile, objects, w) {
      forall o | o in objects ensures !Absent(objects[o], w) {
        assert compile(w, o) == Some(objects[o]);
      }
    }
  }

  // ---------- what prepare leaves ----------

  /** Whatever survives prepare is sound for the current inputs. */
  lemma SurvivorsAreClean(compile: Compiler, gone: bool, objects: map<string, Obj>, prior: State, w: World)
    requires Faithful(compile) && Backed(compile, gone, prior)
    requires prior.configuration == w.configuration && prior.graph == w.graph
    ensures Sound(compile, gone, Survivors(objects, prior, w), w)
  {
    var v :| BackedBy(compile, gone, prior, v);
    var kept := Survivors(objects, prior, w);
    forall o | o in kept
      ensures compile(w, o) == Some(kept[o]) || (gone && Absent(kept[o], w))
    {
      var obj := objects[o];
      assert Lookup(prior.objects, o) == Some(obj);
      forall n | n in obj.deps
        ensures Read(v, n) == Read(w, n)
      {
        DependencyUnchanged(objects, prior, v, w, o, n);
      }
      if compile(v, o) == Some(obj) {
        assert SameFor(v, w, obj.deps);
      }
    }
  }

  lemma DependencyUnchanged(objects: map<string, Obj>, prior: State, v: World, w: World, o: string, n: Name)
    requires prior.files == v.files
    requires forall n :: n in prior.external ==> prior.external[n] == Lookup(v.external, n)
    requires n.Foreign? ==> n in prior.external
    requires o in objects && n in objects[o].deps
    requires n !in Changed(prior, w, ExternalHashes(objects, w))
    ensures Read(v, n) == Read(w, n)
  {
    if n.Foreign? {
      var now := ExternalHashes(objects, w);
      assert n in ForeignDeps(objects);
      assert n in now;
      assert n in prior.external.Keys + now.Keys;
      assert Lookup(prior.external, n) == Lookup(now, n);
    } else if n in prior.files.Keys + w.files.Keys {
      assert Lookup(prior.files, n) == Lookup(w.files, n);
    }
  }

  lemma PreparedIsClean(compile: Compiler, gone: bool, d: Disk, w: World, force: bool)
    requires Faithful(compile) && (!NeedsClean(d, w, force, Prior(d)) ==> Backed(compile, gone, Prior(d).value))
    ensures var d' := Prepared(d, w, force);
      && Sound(compile, gone, d'.objects, w)
      && d'.pending.Some? && BackedBy(compile, gone, d'.pending.value, w) && d'.pending.value.objects == d'.objects
      && (d'.receipt.Some? ==> d'.receipt == d.receipt)
  {
    var d' := Prepared(d, w, force);
    if !NeedsClean(d, w, force, Prior(d)) {
      var kept := Survivors(d.objects, Prior(d).value, w);
      SurvivorsAreClean(compile, gone, d.objects, Prior(d).value, w);
      forall n | n in ForeignDeps(kept)
        ensures n in ExternalHashes(d.objects, w)
      {
        var o :| o in kept && n in kept[o].deps && n.Foreign?;
        assert n in ForeignDeps(d.objects);
      }
    }
  }

  /** If the linked output survives prepare, it is the one of the last finished build and no
      object was dropped since. */
  lemma SurvivingLinkIsFinished(d: Disk, w: World, force: bool)
    requires OUTPUT in Prepared(d, w, force).links
    ensures d.pending.None? && d.receipt.Some?
    ensures d.receipt.value.links == Some(d.links) && Prepared(d, w, force).links == d.links
    ensures Prepared(d, w, force).objects == d.objects
    ensures forall o :: o in d.objects ==> Lookup(d.receipt.value.objects, o) == Some(d.objects[o])
  {
    if !NeedsClean(d, w, force, Prior(d)) {
      var kept := Survivors(d.objects, Prior(d).value, w);
      assert kept == d.objects;
      forall o | o in d.objects
        ensures Lookup(d.receipt.value.objects, o) == Some(d.objects[o])
      {
        assert o in kept;
      }
    }
  }

  // ---------- prepare drops no more than it must ----------

  /** A build that does not start from nothing: not asked for, same toolchain, description and
      generated files, a makefile, and no object with an unusable dependency list. */
  ghost predicate Continues(d: Disk, w: World, force: bool, prior: State) {
    && !force && Prior(d) == Some(prior)
    && prior.configuration == w.configuration && prior.graph == w.graph
    && (prior.generated == None || prior.generated == Some(d.generated)) && MAKEFILE in d.generated
    && forall o :: o in d.objects ==> |d.objects[o].deps| > 0
  }

  /** The dependency has the content that was recorded for it; an outside one that was not recorded
      counts as changed. */
  ghost predicate Unchanged(prior: State, w: World, n: Name) {
    && (n in prior.files || n in w.files ==> Lookup(prior.files, n) == Lookup(w.files, n))
    && (n.Foreign? ==> Lookup(prior.external, n) == Some(Lookup(w.external, n)))
  }

  /** Prepare keeps an object exactly when its record is that of the prior state, the tracked files
      are the same set, and no dependency of its own has changed. */
  lemma PreparedKeepsIff(d: Disk, w: World, force: bool, prior: State, o: string)
    requires Continues(d, w, force, prior) && o in d.objects && WellNamed(w)
    requires forall n :: n in prior.files ==> n.Local?
    requires forall n :: n in prior.external ==> n.Foreign?
    ensures o in Prepared(d, w, force).objects <==>
      && Lookup(prior.objects, o) == Some(d.objects[o])
      && (forall n :: n in prior.files <==> n in w.files)
      && (forall n :: n in d.objects[o].deps ==> Unchanged(prior, w, n))
    ensures o in Prepared(d, w, force).objects ==> Prepared(d, w, force).objects[o] == d.objects[o]
  {
    assert !NeedsClean(d, w, force, Prior(d));
    assert (forall n :: n in prior.files <==> n in w.files) <==> prior.files.Keys == w.files.Keys;
    var now := ExternalHashes(d.objects, w);
    forall n | n in d.objects[o].deps
      ensures n in Changed(prior, w, now) <==> !Unchanged(prior, w, n)
    {
      if n.Foreign? {
        assert n in ForeignDeps(d.objects);
        assert n in now && now[n] == Lookup(w.external, n);
      }
    }
  }

  /** Otherwise prepare removes everything; and when it continues, it has the build description
      generated again exactly if the set of tracked files has changed. */
  lemma PreparedStartsFromNothingIff(d: Disk, w: World, force: bool)
    ensures (forall prior :: !Continues(d, w, force, prior)) ==>
      var r := Prepared(d, w, force);
      r.objects == map[] && r.generated == map[] && r.links == map[] && r.receipt == None
    ensures forall prior :: Continues(d, w, force, prior) ==>
      var r := Prepared(d, w, force);
      && r.receipt == d.receipt
      && r.generated == if forall n :: n in prior.files <==> n in w.files then d.generated else d.generated - {MAKEFILE}
  {
    if !NeedsClean(d, w, force, Prior(d)) {
      assert Continues(d, w, force, Prior(d).value);
    }
    forall prior | Continues(d, w, force, prior)
      ensures (forall n :: n in prior.files <==> n in w.files) <==> prior.files.Keys == w.files.Keys
    {
    }
  }

  /** What an accepted finish recorded, built on in a later world with the same toolchain,
      description and set of tracked files. */
  ghost predicate BuildsOn(d: Disk, v: World, w: World, late: set<Name>) {
    && Finishes(d, v, late) && MAKEFILE in d.generated && WellNamed(v) && WellNamed(w)
    && w.configuration == v.configuration && w.graph == v.graph && w.files.Keys == v.files.Keys
  }

  /** After an accepted finish the next prepare drops exactly the objects of which a dependency has
      another content now, and the links exactly if it dropped an object. */
  lemma RebuildIsIncremental(d: Disk, v: World, w: World, late: set<Name>)
    requires BuildsOn(d, v, w, late)
    ensures var r := Prepared(Finished(d, v), w, false);
      && (forall o :: o in r.objects <==> o in d.objects && forall n :: n in d.objects[o].deps ==> Read(v, n) == Read(w, n))
      && (forall o :: o in r.objects ==> r.objects[o] == d.objects[o])
      && r.generated == d.generated
      && r.links == if r.objects == d.objects then d.links else map[]
  {
    var f := Finished(d, v);
    var prior := f.receipt.value;
    assert Continues(f, w, false, prior);
    assert !NeedsClean(f, w, false, Prior(f));
    forall o | o in d.objects
      ensures o in Prepared(f, w, false).objects <==> forall n :: n in d.objects[o].deps ==> Read(v, n) == Read(w, n)
    {
      PreparedKeepsIff(f, w, false, prior, o);
      forall n | n in d.objects[o].deps
        ensures Unchanged(prior, w, n) <==> Read(v, n) == Read(w, n)
      {
        if n.Foreign? {
          assert n in ForeignDeps(d.objects);
          assert prior.external[n] == Lookup(v.external, n);
          assert n !in prior.files && n !in w.files;
        }
      }
    }
  }

  /** So without an edit nothing is dropped. */
  lemma NothingChangedKeepsAll(d: Disk, w: World, late: set<Name>)
    requires BuildsOn(d, w, w, late)
    ensures var r := Prepared(Finished(d, w), w, false);
      r.objects == d.objects && r.links == d.links && r.generated == d.generated
  {
    RebuildIsIncremental(d, w, w, late);
    var r := Prepared(Finished(d, w), w, false);
    assert r.objects.Keys == d.objects.Keys;
  }

  // ---------- whole histories ----------

  /** A history point.  The last four fields describe the build session since the last prepare:
      the world it started in, what was edited since, and which objects a killed compiler or
      another writer left in an unknown state. */
  datatype Sys = Sys(
    world: World,
    disk: Disk,
    start: World,
    touched: set<Name>,
    settingsTouched: bool,
    spoiled: set<string>)

  /** What a killed prepare has not removed yet. */
  datatype Left = Left(objects: set<string>, generated: set<string>, links: set<string>)

  function Only<V>(m: map<string, V>, names: set<string>): map<string, V> {
    map n | n in m && n in names :: m[n]
  }

  datatype Event =
    | Edit(world: World)
    | Prepare(force: bool)
    | PrepareCut(left: Left, keepPending: bool, keepReceipt: bool)
    | Compile(object: string, seen: World)
    | Spoil(object: string, leaving: Obj)
    | Drop(object: string)
    | Relink(generated: map<string, Text>, links: map<string, Text>)
    | Finish
    | FinishCut

  /** A world that compiles of this session can have read: it may mix old and new content of
      whatever was edited since the start. */
  ghost predicate Seen(s: Sys, w: World) {
    && (forall n :: n !in s.touched ==> Read(w, n) == Read(s.start, n))
    && (!s.settingsTouched ==> w.configuration == s.start.configuration && w.graph == s.start.graph)
    && (forall n :: n in w.files ==> n.Local?) && (forall n :: n in w.external ==> n.Foreign?)
  }

  /** Nothing edited in this session has been put back to what it was at the start. */
  ghost predicate NothingRestored(s: Sys) {
    && (forall n :: n in s.touched ==> Read(s.world, n) != Read(s.start, n))
    && (s.settingsTouched ==>
          s.world.configuration != s.start.configuration || s.world.graph != s.start.graph)
  }

  /** No outside dependency that this session discovered has been deleted again. */
  ghost predicate NothingVanished(s: Sys) {
    s.disk.pending.Some? ==>
    forall n :: n in ForeignDeps(s.disk.objects) && n !in s.disk.pending.value.external && n in s.touched
      ==> n in s.world.external
  }

  ghost predicate WellNamed(w: World) {
    (forall n :: n in w.files ==> n.Local?) && (forall n :: n in w.external ==> n.Foreign?)
  }

  function Touching(v: World, w: World): set<Name> {
    set n | n in v.files.Keys + w.files.Keys + v.external.Keys + w.external.Keys && Read(v, n) != Read(w, n)
  }

  ghost predicate Step(compile: Compiler, s: Sys, e: Event, s': Sys) {
    match e
    case Edit(w) =>
      WellNamed(w) &&
      s' == s.(world := w, touched := s.touched + Touching(s.world, w),
               settingsTouched := s.settingsTouched
                 || w.configuration != s.world.configuration || w.graph != s.world.graph)
    case Prepare(force) =>
      s' == Sys(s.world, Prepared(s.disk, s.world, force), s.world, {}, false, {})
    case PrepareCut(left, keepPending, keepReceipt) =>
      // killed before the checkpoint is written: only removals have happened
      s' == s.(disk := s.disk.(objects := Only(s.disk.objects, left.objects),
                               generated := Only(s.disk.generated, left.generated),
                               links := Only(s.disk.links, left.links),
                               pending := if keepPending then s.disk.pending else None,
                               receipt := if keepReceipt then s.disk.receipt else None))
    case Compile(o, seen) =>
      s.disk.pending.Some? && Seen(s, seen) && compile(seen, o).Some? &&
      s' == s.(disk := s.disk.(objects := s.disk.objects[o := compile(seen, o).value]),
               spoiled := s.spoiled - {o})
    case Spoil(o, obj) =>
      s' == s.(disk := s.disk.(objects := s.disk.objects[o := obj]), spoiled := s.spoiled + {o})
    case Drop(o) =>
      s' == s.(disk := s.disk.(objects := s.disk.objects - {o}))
    case Relink(generated, links) =>
      s' == s.(disk := s.disk.(generated := generated, links := links))
    case Finish =>
      Completes(s) && s' == s.(disk := Finished(s.disk, s.world))
    case FinishCut =>
      // killed between writing the receipt and removing the checkpoint
      Completes(s) &&
      s' == s.(disk := Finished(s.disk, s.world).(pending := s.disk.pending))
  }

  /** Finish is asked for and accepts.  A build that left an object half written has failed and
      is not finished. */
  ghost predicate Completes(s: Sys) {
    && s.spoiled * s.disk.objects.Keys == {}
    && Finishes(s.disk, s.world, s.touched)
  }

  ghost predicate Initial(s: Sys) {
    WellNamed(s.world) && s.disk.pending.None? && s.disk.receipt.None? && s.start == s.world
    && s.touched == {} && !s.settingsTouched
  }

  /** Object o was compiled from something that the session could see. */
  ghost predicate Compiled(compile: Compiler, s: Sys, o: string)
    requires o in s.disk.objects
  {
    exists w :: Seen(s, w) && compile(w, o) == Some(s.disk.objects[o])
  }

  /** A dependency that was not there when the session started, and is recorded as such. */
  predicate Missing(s: Sys, n: Name) {
    && Read(s.start, n).None? && s.disk.pending.Some?
    && (n.Foreign? ==> n in s.disk.pending.value.external)
  }

  /** Every object of the session that is not spoiled was compiled in it, could have been, or has been
      without a dependency since before. */
  ghost predicate Explained(compile: Compiler, gone: bool, s: Sys) {
    forall o :: o in s.disk.objects && o !in s.spoiled ==>
      Compiled(compile, s, o) || (gone && exists n :: n in s.disk.objects[o].deps && Missing(s, n))
  }

  ghost predicate Named(s: Sys) {
    WellNamed(s.world) && WellNamed(s.start) && Seen(s, s.world)
  }

  ghost predicate Inv(compile: Compiler, gone: bool, s: Sys) {
    && Named(s)
    && (s.disk.receipt.Some? ==> Backed(compile, gone, s.disk.receipt.value))
    && (s.disk.pending.Some? ==>
          BackedBy(compile, gone, s.disk.pending.value, s.start) && Explained(compile, gone, s))
  }

  /** The checkpoint says what was there when the session started. */
  ghost predicate StartRecorded(s: Sys) {
    s.disk.pending.Some? &&
    (var p := s.disk.pending.value;
     && p.files == s.start.files && p.graph == s.start.graph && p.configuration == s.start.configuration
     && forall n :: n in p.external ==> p.external[n] == Lookup(s.start.external, n))
  }

  /** Finish looks at everything that happened, up to dependencies that are gone. */
  ghost predicate Accounted(gone: bool, s: Sys) {
    NothingRestored(s) && (gone || NothingVanished(s))
  }

  /** When finish accepts, every object on disk is sound in the current world. */
  lemma FinishIsSound(compile: Compiler, gone: bool, s: Sys)
    requires Faithful(compile) && Inv(compile, gone, s) && Completes(s) && Accounted(gone, s)
    ensures Sound(compile, gone, s.disk.objects, s.world)
    ensures BackedBy(compile, gone, Finished(s.disk, s.world).receipt.value, s.world)
  {
    NoTrackedTouched(s);
    forall o | o in s.disk.objects
      ensures compile(s.world, o) == Some(s.disk.objects[o]) || (gone && Absent(s.disk.objects[o], s.world))
    {
      assert o !in s.spoiled * s.disk.objects.Keys;
      if Compiled(compile, s, o) {
        if !gone || !Absent(s.disk.objects[o], s.world) {
          CompiledIsClean(compile, s, o);
        }
      } else {
        var n :| n in s.disk.objects[o].deps && Missing(s, n);
        StillMissing(s, n);
      }
    }
  }

  /** What is missing at the start is missing when finish accepts. */
  lemma StillMissing(s: Sys, n: Name)
    requires Named(s) && NothingRestored(s) && Completes(s) && Missing(s, n)
    requires StartRecorded(s)
    ensures Read(s.world, n).None?
  {
  }

  lemma CompiledIsClean(compile: Compiler, s: Sys, o: string)
    requires Faithful(compile) && Named(s) && Completes(s) && NothingRestored(s)
    requires StartRecorded(s)
    requires o in s.disk.objects && Compiled(compile, s, o)
    requires NothingVanished(s) || !Absent(s.disk.objects[o], s.world)
    ensures compile(s.world, o) == Some(s.disk.objects[o])
  {
    NoTrackedTouched(s);
    var w :| Seen(s, w) && compile(w, o) == Some(s.disk.objects[o]);
    SeenFiles(s, w);
    forall n | n in s.disk.objects[o].deps
      ensures Read(w, n) == Read(s.world, n)
    {
      DependencyUntouched(s, o, n);
    }
    assert SameFor(w, s.world, s.disk.objects[o].deps);
  }

  /** Of edits that were not put back, finish misses one: it looks at a newly discovered outside dependency
      only if that file still exists.  So the finished objects are clean exactly when no such
      file was deleted during the build. */
  lemma FinishCleanIff(compile: Compiler, s: Sys)
    requires Faithful(compile) && Inv(compile, false, s) && Completes(s) && NothingRestored(s)
    ensures AllClean(compile, s.disk.objects, s.world) <==> NothingVanished(s)
  {
    if NothingVanished(s) {
      FinishIsSound(compile, false, s);
    }
    if AllClean(compile, s.disk.objects, s.world) {
      forall n | n in ForeignDeps(s.disk.objects)
        ensures n in s.world.external
      {
        var o :| o in s.disk.objects && n in s.disk.objects[o].deps && n.Foreign?;
        assert compile(s.world, o) == Some(s.disk.objects[o]);
        assert Read(s.world, n).Some?;
      }
    }
  }

  /** Finish compares all tracked files and settings with those of the start. */
  lemma NoTrackedTouched(s: Sys)
    requires Named(s) && NothingRestored(s) && Finishes(s.disk, s.world, s.touched)
    requires StartRecorded(s)
    ensures !s.settingsTouched && s.world.files == s.start.files
    ensures forall n: Name :: n.Local? ==> n !in s.touched
  {
  }

  lemma SeenFiles(s: Sys, w: World)
    requires Seen(s, w) && WellNamed(s.start) && (forall n: Name :: n.Local? ==> n !in s.touched)
    ensures w.files == s.start.files
  {
    forall n
      ensures Lookup(w.files, n) == Lookup(s.start.files, n)
    {
      if n.Local? {
        assert Read(w, n) == Read(s.start, n);
      }
    }
    forall n
      ensures n in w.files <==> n in s.start.files
      ensures n in w.files ==> w.files[n] == s.start.files[n]
    {
      assert Lookup(w.files, n) == Lookup(s.start.files, n);
    }
  }

  lemma DependencyUntouched(s: Sys, o: string, n: Name)
    requires Named(s) && NothingRestored(s) && Completes(s)
    requires StartRecorded(s)
    requires o in s.disk.objects && n in s.disk.objects[o].deps
    requires NothingVanished(s) || !Absent(s.disk.objects[o], s.world)
    ensures n !in s.touched
  {
    if n.Foreign? {
      assert n in ForeignDeps(s.disk.objects);
      if n in s.disk.pending.value.external {
        assert Read(s.world, n) == Read(s.start, n);
      }
    } else {
      NoTrackedTouched(s);
    }
  }

  lemma EditKeepsSeen(s: Sys, w: World, v: World)
    requires WellNamed(w) && WellNamed(s.world) && WellNamed(s.start) && Seen(s, s.world)
    ensures var s' := s.(world := w, touched := s.touched + Touching(s.world, w),
                         settingsTouched := s.settingsTouched
                           || w.configuration != s.world.configuration || w.graph != s.world.graph);
      Seen(s', w) && (Seen(s, v) ==> Seen(s', v))
  {
    forall n | n !in s.touched + Touching(s.world, w)
      ensures Read(w, n) == Read(s.start, n)
    {
      assert Read(s.world, n) == Read(s.start, n);
      if n !in s.world.files.Keys + w.files.Keys + s.world.external.Keys + w.external.Keys {
        assert Read(s.world, n) == None == Read(w, n);
      }
    }
  }

  /** A prepare that starts from nothing needs no state to start from. */
  ghost predicate Cleans(s: Sys, e: Event) {
    e.Prepare? && NeedsClean(s.disk, s.world, e.force, Prior(s.disk))
  }

  lemma CleaningKeepsInv(compile: Compiler, gone: bool, s: Sys, e: Event, s': Sys)
    requires Faithful(compile) && Named(s) && Step(compile, s, e, s') && Cleans(s, e)
    ensures Inv(compile, gone, s') && AllClean(compile, s'.disk.objects, s'.world)
  {
    PreparedIsClean(compile, gone, s.disk, s.world, e.force);
    assert Seen(s', s'.world);
  }

  lemma StepKeepsNamed(compile: Compiler, s: Sys, e: Event, s': Sys)
    requires Named(s) && Step(compile, s, e, s')
    ensures Named(s')
  {
    match e
    case Edit(w) => EditKeepsSeen(s, w, s.world);
    case _ => assert s'.world == s.world; assert Seen(s', s'.world);
  }

  lemma PrepareKeepsInv(compile: Compiler, gone: bool, s: Sys, force: bool, s': Sys)
    requires Faithful(compile) && Inv(compile, gone, s) && Step(compile, s, Prepare(force), s')
    ensures Inv(compile, gone, s') && Sound(compile, gone, s'.disk.objects, s'.world)
  {
    if s.disk.pending.Some? {
      assert Backed(compile, gone, s.disk.pending.value);
    }
    PreparedIsClean(compile, gone, s.disk, s.world, force);
    assert Seen(s', s'.world);
    var objects := s'.disk.objects;
    forall o | o in objects
      ensures Compiled(compile, s', o) || (gone && exists n :: n in objects[o].deps && Missing(s', n))
    {
      if compile(s'.world, o) != Some(objects[o]) {
        var n :| n in objects[o].deps && Read(s'.world, n).None?;
        assert n.Foreign? ==> n in ForeignDeps(s'.disk.pending.value.objects);
        assert Missing(s', n);
      }
    }
  }

  lemma EditKeepsInv(compile: Compiler, gone: bool, s: Sys, w: World, s': Sys)
    requires Inv(compile, gone, s) && Step(compile, s, Edit(w), s')
    ensures Inv(compile, gone, s')
  {
    EditKeepsSeen(s, w, s.world);
    if s.disk.pending.Some? {
      forall o | o in s'.disk.objects && o !in s'.spoiled
        ensures Compiled(compile, s', o) || (gone && exists n :: n in s'.disk.objects[o].deps && Missing(s', n))
      {
        if Compiled(compile, s, o) {
          var v :| Seen(s, v) && compile(v, o) == Some(s.disk.objects[o]);
          EditKeepsSeen(s, w, v);
        } else {
          var n :| n in s.disk.objects[o].deps && Missing(s, n);
          assert Missing(s', n);
        }
      }
    }
  }

  lemma StepKeepsInv(compile: Compiler, gone: bool, s: Sys, e: Event, s': Sys)
    requires Faithful(compile) && Inv(compile, gone, s) && Step(compile, s, e, s')
    requires e.Finish? || e.FinishCut? ==> Accounted(gone, s)
    ensures Inv(compile, gone, s')
    ensures e.Prepare? || e.Finish? ==> Sound(compile, gone, s'.disk.objects, s'.world)
  {
    match e
    case Edit(w) =>
      EditKeepsInv(compile, gone, s, w, s');
    case Prepare(force) =>
      PrepareKeepsInv(compile, gone, s, force, s');
    case Finish =>
      FinishIsSound(compile, gone, s);
    case FinishCut =>
      FinishIsSound(compile, gone, s);
      ExplainedSubset(compile, gone, s, s');
    case PrepareCut(left, keepPending, keepReceipt) =>
      if keepPending {
        ExplainedSubset(compile, gone, s, s');
      }
    case Drop(o) =>
      ExplainedSubset(compile, gone, s, s');
    case Compile(o, seen) =>
      assert Seen(s', seen);
      ExplainedExcept(compile, gone, s, s', o);
    case Spoil(o, obj) =>
      ExplainedExcept(compile, gone, s, s', o);
    case Relink(generated, links) =>
      ExplainedSubset(compile, gone, s, s');
  }

  /** What explains an object goes on to explain it. */
  lemma StillExplained(compile: Compiler, gone: bool, s: Sys, s': Sys, o: string)
    requires s'.start == s.start && s'.touched == s.touched && s'.settingsTouched == s.settingsTouched
    requires s'.disk.pending == s.disk.pending && Explained(compile, gone, s)
    requires o in s.disk.objects && o !in s.spoiled && Lookup(s'.disk.objects, o) == Some(s.disk.objects[o])
    ensures Compiled(compile, s', o) || (gone && exists n :: n in s'.disk.objects[o].deps && Missing(s', n))
  {
    if Compiled(compile, s, o) {
      var w :| Seen(s, w) && compile(w, o) == Some(s.disk.objects[o]);
      assert Seen(s', w);
    } else {
      var n :| n in s.disk.objects[o].deps && Missing(s, n);
      assert Missing(s', n);
    }
  }

  lemma ExplainedSubset(compile: Compiler, gone: bool, s: Sys, s': Sys)
    requires s'.start == s.start && s'.touched == s.touched && s'.settingsTouched == s.settingsTouched
    requires s'.spoiled == s.spoiled && s'.disk.pending == s.disk.pending
    requires forall o :: o in s'.disk.objects ==> Lookup(s.disk.objects, o) == Some(s'.disk.objects[o])
    ensures Explained(compile, gone, s) ==> Explained(compile, gone, s')
  {
    if Explained(compile, gone, s) {
      forall o | o in s'.disk.objects && o !in s'.spoiled
        ensures Compiled(compile, s', o) || (gone && exists n :: n in s'.disk.objects[o].deps && Missing(s', n))
      {
        StillExplained(compile, gone, s, s', o);
      }
    }
  }

  lemma ExplainedExcept(compile: Compiler, gone: bool, s: Sys, s': Sys, o: string)
    requires s'.start == s.start && s'.touched == s.touched && s'.settingsTouched == s.settingsTouched
    requires s'.disk.pending == s.disk.pending
    requires forall x :: x != o ==> (x in s'.disk.objects <==> x in s.disk.objects)
    requires forall x :: x != o ==> (x in s'.spoiled <==> x in s.spoiled)
    requires forall x :: x != o && x in s.disk.objects ==> s'.disk.objects[x] == s.disk.objects[x]
    requires o in s'.spoiled || (o in s'.disk.objects && Compiled(compile, s', o))
    ensures Explained(compile, gone, s) ==> Explained(compile, gone, s')
  {
    if Explained(compile, gone, s) {
      forall x | x in s'.disk.objects && x !in s'.spoiled
        ensures Compiled(compile, s', x) || (gone && exists n :: n in s'.disk.objects[x].deps && Missing(s', n))
      {
        if x != o {
          StillExplained(compile, gone, s, s', x);
        }
      }
    }
  }

  /** A history: states[i] goes to states[i + 1] by events[i]. */
  ghost predicate History(compile: Compiler, states: seq<Sys>, events: seq<Event>) {
    && |states| == |events| + 1 && Initial(states[0])
    && forall i :: 0 <= i < |events| ==> Step(compile, states[i], events[i], states[i + 1])
  }

  /** At point i there has been a finish that missed something, and no prepare since that started
      from nothing. */
  ghost predicate Tainted(gone: bool, states: seq<Sys>, events: seq<Event>, i: nat)
    requires i < |states| == |events| + 1
  {
    i > 0 && !Cleans(states[i - 1], events[i - 1]) &&
    (((events[i - 1].Finish? || events[i - 1].FinishCut?) && !Accounted(gone, states[i - 1]))
     || Tainted(gone, states, events, i - 1))
  }

  lemma {:induction false} HistoryInv(compile: Compiler, gone: bool, states: seq<Sys>, events: seq<Event>, i: nat)
    requires Faithful(compile) && History(compile, states, events) && i < |states|
    ensures Named(states[i]) && (!Tainted(gone, states, events, i) ==> Inv(compile, gone, states[i]))
  {
    if i > 0 {
      var s, e, s' := states[i - 1], events[i - 1], states[i];
      HistoryInv(compile, gone, states, events, i - 1);
      StepKeepsNamed(compile, s, e, s');
      if Cleans(s, e) {
        CleaningKeepsInv(compile, gone, s, e, s');
      } else if !Tainted(gone, states, events, i) {
        StepKeepsInv(compile, gone, s, e, s');
      }
    }
  }

  lemma HistoryIsSound(compile: Compiler, gone: bool, states: seq<Sys>, events: seq<Event>, i: nat)
    requires Faithful(compile) && History(compile, states, events)
    requires i < |events| && (events[i].Prepare? || events[i].Finish?) && !Tainted(gone, states, events, i + 1)
    ensures Sound(compile, gone, states[i + 1].disk.objects, states[i + 1].world)
  {
    HistoryInv(compile, gone, states, events, i);
    if Cleans(states[i], events[i]) {
      CleaningKeepsInv(compile, gone, states[i], events[i], states[i + 1]);
    } else {
      StepKeepsInv(compile, gone, states[i], events[i], states[i + 1]);
    }
  }

  /** In every history of edits, builds, killed compiles and retries: right after a prepare, and
      right after a finish, every object on disk equals a clean compile of the current inputs, unless
      an earlier finish missed something and no prepare has started from nothing since. */
  lemma CacheAgreesWithCleanBuild(compile: Compiler, states: seq<Sys>, events: seq<Event>, i: nat)
    requires Faithful(compile) && History(compile, states, events)
    requires i < |events| && (events[i].Prepare? || events[i].Finish?) && !Tainted(false, states, events, i + 1)
    ensures AllClean(compile, states[i + 1].disk.objects, states[i + 1].world)
  {
    HistoryIsSound(compile, false, states, events, i);
  }

  /** Whatever vanished during builds: right after a prepare, and right after a finish, the objects are
      those of a clean build exactly when every dependency that one of them names is there.  Only an
      edit that was put back before a finish can hide anything else. */
  lemma StaleIffDependencyGone(compile: Compiler, states: seq<Sys>, events: seq<Event>, i: nat)
    requires Faithful(compile) && History(compile, states, events)
    requires i < |events| && (events[i].Prepare? || events[i].Finish?) && !Tainted(true, states, events, i + 1)
    ensures var s := states[i + 1];
      AllClean(compile, s.disk.objects, s.world) <==>
        forall o :: o in s.disk.objects ==> !Absent(s.disk.objects[o], s.world)
  {
    HistoryIsSound(compile, true, states, events, i);
    CleanIffPresent(compile, states[i + 1].disk.objects, states[i + 1].world);
  }

  // ---------- what finish accepts ----------

  lemma {:induction false} HistoryRecords(compile: Compiler, states: seq<Sys>, events: seq<Event>, i: nat)
    requires Faithful(compile) && History(compile, states, events) && i < |states|
    ensures Named(states[i]) && (states[i].disk.pending.Some? ==> StartRecorded(states[i]))
  {
    HistoryInv(compile, true, states, events, i);
    if i > 0 {
      HistoryRecords(compile, states, events, i - 1);
      var s, e := states[i - 1], events[i - 1];
      assert Step(compile, s, e, states[i]);
      if e.Prepare? {
        PreparedRecords(s.disk, s.world, e.force);
      }
    }
  }

  lemma PreparedRecords(d: Disk, w: World, force: bool)
    ensures var d' := Prepared(d, w, force);
      && d'.pending.Some? && d'.pending.value.files == w.files && d'.pending.value.graph == w.graph
      && d'.pending.value.configuration == w.configuration
      && forall n :: n in d'.pending.value.external ==> d'.pending.value.external[n] == Lookup(w.external, n)
  {
  }

  /** The build has linked something and knows what its objects depend on. */
  ghost predicate Built(d: Disk) {
    && OUTPUT in d.links && |d.links[OUTPUT]| > 0
    && forall o :: o in d.objects ==> |d.objects[o].deps| > 0
  }

  /** At every point of every history: a build during which nothing was edited is accepted exactly
      when it has been prepared and has linked its output. */
  lemma UndisturbedIsAccepted(compile: Compiler, states: seq<Sys>, events: seq<Event>, i: nat)
    requires Faithful(compile) && History(compile, states, events) && i < |states|
    requires states[i].touched == {} && !states[i].settingsTouched
    ensures Finishes(states[i].disk, states[i].world, states[i].touched) <==>
      states[i].disk.pending.Some? && Built(states[i].disk)
  {
    var s := states[i];
    HistoryRecords(compile, states, events, i);
    SeenFiles(s, s.world);
    if s.disk.pending.Some? {
      forall n | n in s.disk.pending.value.external
        ensures Lookup(s.world.external, n) == s.disk.pending.value.external[n]
      {
        SameForeign(s, n);
      }
    }
  }

  lemma SameForeign(s: Sys, n: Name)
    requires Named(s) && s.touched == {}
    ensures Lookup(s.world.external, n) == Lookup(s.start.external, n)
  {
    if n.Foreign? {
      assert Read(s.world, n) == Read(s.start, n);
    }
  }

  /** What finish accepts has been prepared and linked, from the inputs that were there at the start,
      outside dependencies included, except for one that is gone. */
  lemma AcceptedIsAsStarted(compile: Compiler, states: seq<Sys>, events: seq<Event>, i: nat)
    requires Faithful(compile) && History(compile, states, events) && i < |states|
    requires Finishes(states[i].disk, states[i].world, states[i].touched)
    ensures var s := states[i];
      && s.disk.pending.Some? && Built(s.disk)
      && s.world.files == s.start.files && s.world.graph == s.start.graph
      && s.world.configuration == s.start.configuration
    ensures var s := states[i];
      forall o, n :: o in s.disk.objects && n in s.disk.objects[o].deps && n.Foreign? ==>
        Lookup(s.world.external, n) == Lookup(s.start.external, n) || n !in s.world.external
  {
    HistoryRecords(compile, states, events, i);
    var s := states[i];
    forall o, n | o in s.disk.objects && n in s.disk.objects[o].deps && n.Foreign?
      ensures Lookup(s.world.external, n) == Lookup(s.start.external, n) || n !in s.world.external
    {
      assert n in ForeignDeps(s.disk.objects);
      assert n !in s.touched ==> Read(s.world, n) == Read(s.start, n);
    }
  }

  // ---------- the deletion that finish misses ----------

  const HEADER := Foreign("/opt/sdk/h")

  /** One object that copies one outside header. */
  function CopyHeader(w: World, o: string): Option<Obj> {
    if o == "a.o" && HEADER in w.external then Some(Obj(w.external[HEADER], [HEADER])) else None
  }

  lemma CopyHeaderFaithful()
    ensures Faithful(CopyHeader)
  {
    forall v, w, o | CopyHeader(v, o).Some? && SameFor(v, w, CopyHeader(v, o).value.deps)
      ensures CopyHeader(w, o) == CopyHeader(v, o)
    {
      assert Read(v, HEADER) == Read(w, HEADER);
    }
  }

  // the history: prepare, generate, compile from the header, delete the header

  const BARE := World(map[], map[], map[], "")
  const WITH_HEADER := World(map[], map[], map[HEADER := "text"], "")
  const COPY := Obj("text", [HEADER])
  const EMPTY := Disk(map[], map[], map[], None, None)

  const AT_START := Sys(WITH_HEADER, EMPTY, WITH_HEADER, {}, false, {})
  const PREPARED := AT_START.(disk := Prepared(EMPTY, WITH_HEADER, false))
  const GENERATED := PREPARED.(disk :=
    PREPARED.disk.(generated := map[MAKEFILE := "m"], links := map[OUTPUT := "x"]))
  const COMPILED := GENERATED.(disk := GENERATED.disk.(objects := map["a.o" := COPY]))
  const VANISHED := COMPILED.(world := BARE, touched := {} + Touching(WITH_HEADER, BARE))

  lemma VanishingCompile()
    ensures Step(CopyHeader, GENERATED, Compile("a.o", WITH_HEADER), COMPILED)
  {
    assert Seen(GENERATED, WITH_HEADER);
    assert GENERATED.spoiled - {"a.o"} == {};
    assert GENERATED.disk.objects == map[];
  }

  const FINISHED := VANISHED.(disk := Finished(VANISHED.disk, BARE))
  const AGAIN := Sys(BARE, Prepared(FINISHED.disk, BARE, false), BARE, {}, false, {})

  lemma VanishingHistory() returns (states: seq<Sys>, events: seq<Event>)
    ensures History(CopyHeader, states, events) && |states| == 7
    ensures states[4] == VANISHED && states[6] == AGAIN && events[4].Finish? && events[5] == Prepare(false)
  {
    states := [AT_START, PREPARED, GENERATED, COMPILED, VANISHED, FINISHED, AGAIN];
    events := [Prepare(false), Relink(map[MAKEFILE := "m"], map[OUTPUT := "x"]),
               Compile("a.o", WITH_HEADER), Edit(BARE), Finish, Prepare(false)];
    VanishingFinishes();
    assert Step(CopyHeader, AT_START, Prepare(false), PREPARED);
    VanishingCompile();
    assert Step(CopyHeader, COMPILED, Edit(BARE), VANISHED);
    forall i | 0 <= i < |events|
      ensures Step(CopyHeader, states[i], events[i], states[i + 1])
    {
      assert i == 0 || i == 1 || i == 2 || i == 3 || i == 4 || i == 5;
    }
  }

  lemma VanishingFinishes()
    ensures Completes(VANISHED) && NothingRestored(VANISHED) && !NothingVanished(VANISHED)
  {
    assert HEADER in Touching(WITH_HEADER, BARE);
    assert HEADER in COPY.deps && "a.o" in VANISHED.disk.objects;
    assert HEADER in ForeignDeps(VANISHED.disk.objects);
    assert PREPARED.disk.pending.value.external == map[];
  }

  lemma VanishedStays()
    ensures "a.o" in AGAIN.disk.objects && CopyHeader(BARE, "a.o").None?
  {
    var d := Finished(VANISHED.disk, BARE);
    var now := ExternalHashes(d.objects, BARE);
    assert d.receipt.value.external == now && d.receipt.value.files == BARE.files;
    assert Differing(d.receipt.value.external, now) == {} && Differing(BARE.files, BARE.files) == {};
    assert d.objects["a.o"] == COPY;
    assert Keeps(d.receipt.value, true, {}, "a.o", COPY);
    assert "a.o" in Survivors(d.objects, d.receipt.value, BARE);
  }

  /** With a compiler as the theorem asks for: a build compiles an object from a header it had not
      seen before, the header is deleted, finish accepts, and the next prepare keeps the object
      although it can no longer be compiled. */
  lemma VanishedHeaderStaysCached() returns (states: seq<Sys>, events: seq<Event>)
    ensures Faithful(CopyHeader) && History(CopyHeader, states, events)
    ensures |events| == 6 && events[4].Finish? && events[5].Prepare?
    ensures NothingRestored(states[4]) && !NothingVanished(states[4])
    ensures !AllClean(CopyHeader, states[6].disk.objects, states[6].world)
  {
    CopyHeaderFaithful();
    states, events := VanishingHistory();
    VanishingFinishes();
    VanishedStays();
  }

  // ---------- the two operations on the directory ----------

  class BuildDirectory {
    var objects: map<string, Obj>
    var generated: map<string, Text>
    var links: map<string, Text>
    var pending: Option<State>
    var receipt: Option<State>

    function View(): Disk
      reads this
    {
      Disk(objects, generated, links, pending, receipt)
    }

    /** Current content of every outside dependency of the objects. */
    method CurrentExternal(w: World) returns (external: map<Name, Option<Text>>)
      ensures external == ExternalHashes(objects, w)
    {
      external := map[];
      var todo := objects.Keys;
      ghost var done: set<string> := {};
      while todo != {}
        invariant done + todo == objects.Keys
        invariant external.Keys == ForeignOf(objects, done) && Current(external, w)
        decreases todo
      {
        var o :| o in todo;
        external := AddExternal(external, objects[o].deps, w);
        assert ForeignOf(objects, done + {o}) == ForeignOf(objects, done) + ForeignIn(objects[o].deps);
        todo, done := todo - {o}, done + {o};
      }
      assert ForeignOf(objects, done) == ForeignDeps(objects);
    }

    /** Drop the objects that the prior state does not vouch for. */
    method DropInvalid(prior: State, sameFiles: bool, changed: set<Name>) returns (invalidated: bool)
      modifies this`objects
      ensures objects == Kept(old(objects), prior, sameFiles, changed)
      ensures invalidated == (objects != old(objects))
    {
      invalidated := false;
      var todo := objects.Keys;
      ghost var all := objects;
      while todo != {}
        invariant todo <= all.Keys && objects.Keys <= all.Keys
        invariant forall o :: o in objects ==> objects[o] == all[o]
        invariant forall o :: o in all ==>
          (o in objects <==> o in todo || Keeps(prior, sameFiles, changed, o, all[o]))
        invariant invalidated == (objects != all)
        decreases todo
      {
        var o :| o in todo;
        if !sameFiles || Lookup(prior.objects, o) != Some(objects[o]) || exists n :: n in objects[o].deps && n in changed {
          objects := objects - {o};
          assert o !in objects;
          invalidated := true;
        }
        todo := todo - {o};
      }
    }

    method MustClean(w: World, force: bool, prior: Option<State>) returns (clean: bool)
      ensures clean == NeedsClean(View(), w, force, prior)
    {
      clean := force || prior.None? || prior.value.configuration != w.configuration
        || prior.value.graph != w.graph
        || (prior.value.generated.Some? && prior.value.generated.value != generated)
        || MAKEFILE !in generated;
      if !clean && exists o :: o in objects && objects[o].deps == [] {
        clean := true;
      }
    }

    /** The incremental branch. */
    method Prune(w: World, prior: State, external: map<Name, Option<Text>>)
      requires external == ExternalHashes(objects, w)
      modifies this`objects, this`links, this`generated
      ensures View() == Pruned(old(View()), w, prior)
    {
      ghost var all := objects;
      if pending.Some? || OUTPUT !in links || prior.links != Some(links) {
        links := map[];
      }
      var changed := ChangedNames(prior, w, external);
      var membershipChanged := prior.files.Keys != w.files.Keys;
      var invalidated := DropInvalid(prior, !membershipChanged, changed);
      assert objects == Survivors(all, prior, w);
      if invalidated {
        links := map[];
      }
      if membershipChanged {
        generated := generated - {MAKEFILE};
      }
    }

    /** Decide what survives, delete the rest, and write the checkpoint. */
    method Prepare(w: World, force: bool) returns (clean: bool)
      modifies this
      ensures View() == Prepared(old(View()), w, force)
      ensures clean == NeedsClean(old(View()), w, force, Prior(old(View())))
    {
      var prior := if pending.Some? then pending else receipt;
      var external := CurrentExternal(w);
      clean := MustClean(w, force, prior);
      if clean {
        objects, generated, links, pending, receipt := map[], map[], map[], None, None;
      } else {
        Prune(w, prior.value, external);
      }
      pending := Some(Checkpoint(w, external, objects));
    }

    /** Accept the build and write the receipt, or refuse and leave everything as it is. */
    method Finish(w: World, late: set<Name>) returns (ok: bool)
      modifies this
      ensures ok == Finishes(old(View()), w, late)
      ensures View() == if ok then Finished(old(View()), w) else old(View())
    {
      ghost var d := View();
      if pending.None? || OUTPUT !in links || links[OUTPUT] == "" {
        return false;
      }
      var state := pending.value;
      if w.files != state.files || w.graph != state.graph || w.configuration != state.configuration {
        return false;
      }
      if exists o :: o in objects && objects[o].deps == [] {
        return false;
      }
      var currentExternal := CurrentExternal(w);
      if exists n :: n in state.external.Keys && Lookup(w.external, n) != state.external[n] {
        return false;
      }
      if exists n :: n in currentExternal.Keys && n !in state.external && n in w.external && n in late {
        return false;
      }
      assert currentExternal.Keys == ForeignDeps(objects);
      receipt := Some(State(state.configuration, state.files, state.graph, currentExternal, objects,
                            Some(generated), Some(links)));
      pending := None;
      ok := true;
    }
  }

  /** Every recorded content is the current one. */
  ghost predicate Current(external: map<Name, Option<Text>>, w: World) {
    forall n :: n in external ==> external[n] == Lookup(w.external, n)
  }

  /** Add the outside files of one dependency list. */
  method AddExternal(external: map<Name, Option<Text>>, deps: seq<Name>, w: World) returns (r: map<Name, Option<Text>>)
    requires Current(external, w)
    ensures Current(r, w) && r.Keys == external.Keys + ForeignIn(deps)
  {
    r := external;
    var i := 0;
    while i < |deps|
      invariant 0 <= i <= |deps|
      invariant Current(r, w) && r.Keys == external.Keys + ForeignIn(deps[..i])
    {
      assert deps[..i + 1] == deps[..i] + [deps[i]];
      if deps[i].Foreign? && deps[i] !in r {
        r := r[deps[i] := Lookup(w.external, deps[i])];
      }
      i := i + 1;
    }
    assert deps[..i] == deps;
  }

  /** Add the names whose recorded content is not the current one. */
  method AddDiffering<V(==)>(changed: set<Name>, before: map<Name, V>, now: map<Name, V>) returns (r: set<Name>)
    ensures r == changed + Differing(before, now)
  {
    r := changed;
    var todo := before.Keys + now.Keys;
    while todo != {}
      invariant todo <= before.Keys + now.Keys
      invariant r == changed + (Differing(before, now) - todo)
      decreases todo
    {
      var n :| n in todo;
      if Lookup(before, n) != Lookup(now, n) {
        r := r + {n};
      }
      todo := todo - {n};
    }
  }

  method ChangedNames(prior: State, w: World, external: map<Name, Option<Text>>) returns (changed: set<Name>)
    ensures changed == Changed(prior, w, external)
  {
    changed := AddDiffering({}, prior.files, w.files);
    changed := AddDiffering(changed, prior.external, external);
  }

  function ForeignIn(deps: seq<Name>): set<Name> {
    set n | n in deps && n.Foreign?
  }

  function ForeignOf(objects: map<string, Obj>, names: set<string>): set<Name> {
    set o, n | o in names && o in objects && n in objects[o].deps && n.Foreign? :: n
  }
}
