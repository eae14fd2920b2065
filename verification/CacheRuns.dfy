/**
 Runs of the runtime-support cache: any sequence of creates, starts and clean-cache calls,
 with writes from running containers in between.
 */
module CacheRuns {
  import opened Prelude
  import opened Text
  import opened RuntimeCache
  import opened ContainerSpec

  datatype Event =
    | Create(image: string, setup: SetupEnv, extract: ExtractEnv)
    | Start(inspectOk: bool, image: string, setup: SetupEnv, extract: ExtractEnv, startOk: bool, probes: set<string>)
    | CleanUp(clean: CleanEnv)
    | GuestWrites(conf: string, wrapper: string, files: set<string>)

  /** `StartVM` up to the container start: the cache, and whether the container is started. */
  function BeforeStart(c: Cache, t: Texts, ev: Event): (Cache, bool)
    requires ev.Start?
  {
    if !ev.inspectOk || ev.image == "" then (c, false)
    else Restore(c, t, ev.image, ev.setup, ev.extract)
  }

  /** libvirt's probes store capability files for the image just started. */
  function AddProbes(c: Cache, image: string, files: set<string>): Cache {
    if c.caps.None? then c else c.(caps := Some(c.caps.value + map f | f in files :: image))
  }

  function Step(c: Cache, t: Texts, ev: Event): Cache {
    match ev
    case Create(image, se, ee) => Restore(c, t, image, se, ee).0
    case Start(_, image, _, _, startOk, probes) =>
      var r := BeforeStart(c, t, ev);
      if r.1 && startOk then AddProbes(r.0, image, probes) else r.0
    case CleanUp(e) => Clean(c, e).0
    case GuestWrites(conf, wrapper, files) =>
      // through the read-write mounts of qemu.conf, the wrapper and the capability directory
      var c1 := if c.support.None? then c
                else c.(support := Some(c.support.value.(
                       conf := if c.support.value.conf.Some? then Some(conf) else None,
                       wrapper := if c.support.value.wrapper.Some? then Some(wrapper) else None)));
      AddProbes(c1, "", set f | f in files && !IsXml(f))
  }

  function Run(c: Cache, t: Texts, events: seq<Event>): Cache
    decreases |events|
  {
    if events == [] then c else Run(Step(c, t, events[0]), t, events[1..])
  }

  // ----- The runs of the real files -----

  /** `StartVM`, with libvirt's probes after a successful container start. */
  method PerformStart(files: SupportFiles, t: Texts, ev: Event)
    requires ev.Start?
    modifies files
    ensures files.Snapshot() == Step(old(files.Snapshot()), t, ev)
  {
    hide Restore;
    if !ev.inspectOk {
      return;
    }
    if ev.image == "" {
      return;
    }
    var restored := files.RestoreRuntimeSupport(t, ev.image, ev.setup, ev.extract);
    if !restored || !ev.startOk {
      return;
    }
    if files.caps.Some? {
      files.caps := Some(files.caps.value + map f | f in ev.probes :: ev.image);
    }
  }

  /** A running container writes to what is mounted read-write. */
  method PerformGuestWrites(files: SupportFiles, conf: string, wrapper: string, written: set<string>)
    modifies files
    ensures forall t :: files.Snapshot() == Step(old(files.Snapshot()), t, GuestWrites(conf, wrapper, written))
  {
    if files.support.Some? {
      if files.support.value.conf.Some? {
        files.support := Some(files.support.value.(conf := Some(conf)));
      }
      if files.support.value.wrapper.Some? {
        files.support := Some(files.support.value.(wrapper := Some(wrapper)));
      }
    }
    if files.caps.Some? {
      var fresh' := set f | f in written && !IsXml(f);
      files.caps := Some(files.caps.value + map f | f in fresh' :: "");
    }
  }

  /** A sequence of events on the files is a run. */
  method Perform(files: SupportFiles, t: Texts, events: seq<Event>)
    modifies files
    ensures files.Snapshot() == Run(old(files.Snapshot()), t, events)
  {
    hide Step;
    for i := 0 to |events|
      invariant Run(files.Snapshot(), t, events[i..]) == Run(old(files.Snapshot()), t, events)
    {
      assert events[i..][0] == events[i] && events[i..][1..] == events[i + 1..];
      PerformOne(files, t, events[i]);
    }
    assert events[|events|..] == [];
  }

  method PerformOne(files: SupportFiles, t: Texts, ev: Event)
    modifies files
    ensures files.Snapshot() == Step(old(files.Snapshot()), t, ev)
  {
    hide Restore, Clean;
    match ev
    case Create(image, se, ee) => var _ := files.RestoreRuntimeSupport(t, image, se, ee);
    case Start(_, _, _, _, _, _) => PerformStart(files, t, ev);
    case CleanUp(e) => var _ := files.DoCleanCache(e);
    case GuestWrites(conf, wrapper, written) => PerformGuestWrites(files, conf, wrapper, written);
  }

  // ----- Coherence of binary, stamp and capability files -----

  predicate XmlFrom(caps: Option<map<string, string>>, image: string) {
    caps.Some? ==> forall f :: f in caps.value && IsXml(f) ==> caps.value[f] == image
  }

  /** When the stamp and the binary are both there, the binary is the complete one of the
      stamped image, and so is every capability file. */
  predicate Coherent(c: Cache) {
    c.support.Some? && c.support.value.binary.Some? && c.support.value.stamp.Some? ==>
      && c.support.value.binary.value == Complete(c.support.value.stamp.value)
      && XmlFrom(c.caps, c.support.value.stamp.value)
  }

  predicate SomeXml(files: set<string>) {
    exists f :: f in files && IsXml(f)
  }

  /** Which failures do no harm: a partial copy is removed, and after the extraction the stamp
      is either absent, or right with no old capability file left behind. */
  predicate Safe(e: ExtractEnv, image: string) {
    var stamp := AfterWrite(e.stampWrite, image);
    e.cleanupOk && (stamp == None || (stamp == Some(image) && !SomeXml(e.stuckFiles)))
  }

  predicate SafeEvent(ev: Event) {
    match ev
    case Create(image, _, ee) => Safe(ee, image)
    case Start(_, image, _, ee, _, _) => Safe(ee, image)
    case _ => true
  }

  lemma ReliableIsSafe(e: ExtractEnv, image: string)
    ensures Reliable(e) ==> Safe(e, image)
  {
  }

  lemma {:induction false} ReadArchiveShape(s: Support, image: string, entries: seq<Entry>, e: ExtractEnv)
    ensures var r := ReadArchive(s, image, entries, e);
      || r == (s, false)
      || r == (s.(binary := None), false)
      || (!e.cleanupOk && r == (s.(binary := Some(Partial)), false))
      || (r.0 == s.(binary := Some(Complete(image)), stamp := AfterWrite(e.stampWrite, image)) && r.1 == e.stampWrite.Written?)
    decreases |entries|
  {
    if entries != [] && entries[0].Entry? && entries[0].name != "qemu-kvm" {
      ReadArchiveShape(s, image, entries[1..], e);
    }
  }

  lemma DroppedXml(caps: map<string, string>, stuck: set<string>, image: string)
    ensures XmlFrom(Some(caps), image) ==> XmlFrom(Some(DropXml(caps, stuck)), image)
    ensures !SomeXml(stuck) ==> XmlFrom(Some(DropXml(caps, stuck)), image)
  {
  }

  lemma EnsureKeepsCoherent(c: Cache, image: string, e: ExtractEnv)
    requires c.support.Some? && c.caps.Some? && Coherent(c) && Safe(e, image)
    ensures Coherent(Ensure(c, image, e).0)
  {
    var s := c.support.value;
    var s1 := if e.removeBinaryOk then s.(binary := None) else s;
    ReadArchiveShape(s1, image, e.entries, e);
    DroppedXml(c.caps.value, e.stuckFiles, image);
    if s.stamp.Some? {
      DroppedXml(c.caps.value, e.stuckFiles, s.stamp.value);
    }
  }

  /** A successful extraction leaves the right binary, stamp and capability files. */
  lemma EnsureGivesImage(c: Cache, image: string, e: ExtractEnv)
    requires c.support.Some? && c.caps.Some? && Coherent(c) && Safe(e, image) && Ensure(c, image, e).1
    ensures var d := Ensure(c, image, e).0;
      && d.support.Some? && d.support.value.binary == Some(Complete(image)) && d.support.value.stamp == Some(image)
      && XmlFrom(d.caps, image)
  {
    EnsureKeepsCoherent(c, image, e);
    var s := c.support.value;
    ReadArchiveShape(if e.removeBinaryOk then s.(binary := None) else s, image, e.entries, e);
  }

  /** Extraction keeps every coherent cache coherent, whatever the archive looks like, exactly
      when its failures are safe. */
  lemma SafeExactly(image: string, e: ExtractEnv)
    ensures Safe(e, image) <==>
      forall c: Cache, e': ExtractEnv :: SameFailures(e, e') && c.support.Some? && c.caps.Some? && Coherent(c) ==> Coherent(Ensure(c, image, e').0)
  {
    if Safe(e, image) {
      forall c: Cache, e': ExtractEnv | SameFailures(e, e') && c.support.Some? && c.caps.Some? && Coherent(c)
        ensures Coherent(Ensure(c, image, e').0)
      {
        EnsureKeepsCoherent(c, image, e');
      }
    } else {
      var c, e' := Breaks(image, e);
    }
  }

  /** The first qemu-kvm entry of the archive is k, and every header up to it can be read. */
  predicate FirstBinary(entries: seq<Entry>, k: int) {
    && 0 <= k < |entries| && entries[k].Entry? && entries[k].name == "qemu-kvm"
    && forall j :: 0 <= j < k ==> entries[j].Entry? && entries[j].name != "qemu-kvm"
  }

  lemma {:induction false} ReadArchiveSucceeds(s: Support, image: string, entries: seq<Entry>, e: ExtractEnv)
    ensures ReadArchive(s, image, entries, e).1 <==>
      e.stampWrite.Written? && exists k :: FirstBinary(entries, k) && entries[k].openOk && entries[k].copyOk
    decreases |entries|
  {
    if entries != [] {
      var rest := entries[1..];
      if entries[0].Entry? && entries[0].name != "qemu-kvm" {
        ReadArchiveSucceeds(s, image, rest, e);
        if k :| FirstBinary(rest, k) && rest[k].openOk && rest[k].copyOk {
          assert FirstBinary(entries, k + 1);
        }
        if k :| FirstBinary(entries, k) && entries[k].openOk && entries[k].copyOk {
          assert FirstBinary(rest, k - 1);
        }
      } else if entries[0].Entry? {
        assert FirstBinary(entries, 0);
      }
    }
  }

  /** The call succeeds exactly when the stamp is current, or the image yields its first qemu-kvm
      entry, which is copied, and the stamp is written; a current binary is left alone. */
  lemma EnsureSucceedsExactly(c: Cache, image: string, e: ExtractEnv)
    requires c.support.Some? && c.caps.Some?
    ensures var s := c.support.value;
      var current := e.stampReadable && s.stamp == Some(image) && s.binary.Some?;
      && (Ensure(c, image, e).1 <==>
           || current
           || (e.createOk && e.archiveOk && e.stampWrite.Written?
               && exists k :: FirstBinary(e.entries, k) && e.entries[k].openOk && e.entries[k].copyOk))
      && (current ==> Ensure(c, image, e).0 == c)
  {
    var s := c.support.value;
    ReadArchiveSucceeds(if e.removeBinaryOk then s.(binary := None) else s, image, e.entries, e);
  }

  // ----- Every outcome of the three stages -----

  /** What the first qemu-kvm entry leaves. */
  function Extracted(s: Support, image: string, entry: Entry, e: ExtractEnv): (Support, bool)
    requires entry.Entry?
  {
    if !entry.openOk then (s, false)
    else if !entry.copyOk then (s.(binary := if e.cleanupOk then None else Some(Partial)), false)
    else (s.(binary := Some(Complete(image)), stamp := AfterWrite(e.stampWrite, image)), e.stampWrite.Written?)
  }

  lemma {:induction false} ReadArchiveExactly(s: Support, image: string, entries: seq<Entry>, e: ExtractEnv)
    ensures (forall k :: !FirstBinary(entries, k)) ==> ReadArchive(s, image, entries, e) == (s, false)
    ensures forall k :: FirstBinary(entries, k) ==> ReadArchive(s, image, entries, e) == Extracted(s, image, entries[k], e)
    decreases |entries|
  {
    if entries != [] {
      var rest := entries[1..];
      if entries[0].Entry? && entries[0].name != "qemu-kvm" {
        ReadArchiveExactly(s, image, rest, e);
        assert forall k :: FirstBinary(entries, k) ==> k >= 1 && FirstBinary(rest, k - 1);
        assert forall k :: FirstBinary(rest, k) ==> FirstBinary(entries, k + 1);
      } else if entries[0].Entry? {
        assert FirstBinary(entries, 0);
        assert forall k :: FirstBinary(entries, k) ==> k == 0;
      }
    }
  }

  predicate Untouched(c: Cache, d: Cache) {
    d.logs == c.logs && d.containerDisks == c.containerDisks && d.resizedDisks == c.resizedDisks
  }

  /**
   Every outcome of the extraction.  A binary that is current is left alone.  Otherwise the old
   binary goes, unless it cannot be removed, and so do the capability files that can be; then the
   binary is the image's complete one with whatever the stamp write left, if the first qemu-kvm
   entry of a readable archive can be opened and copied; a partial copy is removed, if it can be;
   and in all other cases nothing more happens.
   */
  lemma EnsureExactly(c: Cache, image: string, e: ExtractEnv, k: int)
    requires c.support.Some? && c.caps.Some?
    requires FirstBinary(e.entries, k) || forall j :: !FirstBinary(e.entries, j)
    ensures var (d, ok) := Ensure(c, image, e);
      var s := c.support.value;
      var old' := if e.removeBinaryOk then None else s.binary;
      var reached := e.createOk && e.archiveOk && FirstBinary(e.entries, k) && e.entries[k].openOk;
      if e.stampReadable && s.stamp == Some(image) && s.binary.Some? then d == c && ok
      else
        && d.support.Some? && d.caps.Some? && Untouched(c, d)
        && (forall f :: f in d.caps.value <==> f in c.caps.value && !(HasSuffix(f, ".xml") && f !in e.stuckFiles))
        && (forall f :: f in d.caps.value ==> d.caps.value[f] == c.caps.value[f])
        && d.support.value.wrapper == s.wrapper && d.support.value.conf == s.conf
        && (!reached ==> !ok && d.support.value.binary == old' && d.support.value.stamp == s.stamp)
        && (reached && !e.entries[k].copyOk ==>
              !ok && d.support.value.binary == (if e.cleanupOk then None else Some(Partial)) && d.support.value.stamp == s.stamp)
        && (reached && e.entries[k].copyOk ==>
              && (ok <==> e.stampWrite.Written?) && d.support.value.binary == Some(Complete(image))
              && (e.stampWrite.Written? ==> d.support.value.stamp == Some(image))
              && (e.stampWrite.WriteFailed? ==> d.support.value.stamp == e.stampWrite.left))
  {
    hide ReadArchive;
    var s := c.support.value;
    ReadArchiveExactly(if e.removeBinaryOk then s.(binary := None) else s, image, e.entries, e);
    assert forall f: string :: IsXml(f) <==> HasSuffix(f, ".xml");
  }

  /** Writing the support files succeeds exactly when both directories can be made, qemu.conf can
      be written, and the wrapper can be written unless it reads as current; it touches no other
      file on any outcome, and never a wrapper that is current. */
  lemma WriteSupportExactly(c: Cache, t: Texts, e: SetupEnv)
    ensures var (d, ok) := WriteSupport(c, t, e);
      var current := e.wrapperReadable && c.support.Some? && c.support.value.wrapper == Some(t.wrapper);
      && (ok <==> e.supportMkdir && e.capsMkdir && (current || e.wrapperWrite.Written?) && e.confWrite.Written?)
      && (ok ==> d.support.Some? && d.support.value.wrapper == Some(t.wrapper) && d.support.value.conf == Some(t.conf) && d.caps.Some?)
      && (current ==> d.support.Some? && d.support.value.wrapper == Some(t.wrapper))
      && Untouched(c, d)
      && (c.support.Some? ==> d.support.Some? && d.support.value.binary == c.support.value.binary && d.support.value.stamp == c.support.value.stamp)
      && (c.support.None? && d.support.Some? ==> d.support.value.binary.None? && d.support.value.stamp.None?)
      && (c.caps.Some? ==> d.caps == c.caps) && (c.caps.None? && d.caps.Some? ==> d.caps.value == map[])
  {
  }

  /** A start reaches the container start, and a create its container, exactly when the container
      names an image, the support files can be written, the log directory made, and the image's
      binary is current or can be extracted. */
  lemma StartReachesExactly(c: Cache, t: Texts, ev: Event)
    requires ev.Start?
    ensures var (d, ok) := WriteSupport(c, t, ev.setup);
      BeforeStart(c, t, ev).1 <==>
        ev.inspectOk && ev.image != "" && ok && ev.setup.logsMkdir && Ensure(d.(logs := true), ev.image, ev.extract).1
    ensures !ev.inspectOk || ev.image == "" ==> BeforeStart(c, t, ev).0 == c
    ensures BeforeStart(c, t, ev).1 ==> BeforeStart(c, t, ev).0.logs
  {
    hide Ensure, WriteSupport;
    WriteSupportExactly(c, t, ev.setup);
    var (d, ok) := WriteSupport(c, t, ev.setup);
    if ok {
      EnsureKeepsLogs(d.(logs := true), ev.image, ev.extract);
    }
  }

  lemma EnsureKeepsLogs(c: Cache, image: string, e: ExtractEnv)
    requires c.support.Some? && c.caps.Some?
    ensures Untouched(c, Ensure(c, image, e).0)
  {
  }

  predicate SameFailures(e: ExtractEnv, e': ExtractEnv) {
    e'.cleanupOk == e.cleanupOk && e'.stampWrite == e.stampWrite && e'.stuckFiles == e.stuckFiles
  }

  lemma Breaks(image: string, e: ExtractEnv) returns (c: Cache, e': ExtractEnv)
    requires !Safe(e, image)
    ensures SameFailures(e, e') && c.support.Some? && c.caps.Some? && Coherent(c)
    ensures !Coherent(Ensure(c, image, e').0)
  {
    var other := image + "?";
    assert |other| > |image|;
    c := Cache(Some(Support(None, None, None, Some(other))), Some(map f | f in e.stuckFiles :: other), false, false, false);
    e' := e.(createOk := true, archiveOk := true, entries := [Entry("qemu-kvm", true, e.cleanupOk)]);
    var s1 := c.support.value;
    var r := ReadArchive(s1, image, e'.entries, e');
    if e.cleanupOk {
      assert r.0 == s1.(binary := Some(Complete(image)), stamp := AfterWrite(e.stampWrite, image));
      var d := Ensure(c, image, e').0;
      if AfterWrite(e.stampWrite, image) == Some(image) {
        var f :| f in e.stuckFiles && IsXml(f);
        assert d.caps.value[f] == other;
      }
    } else {
      assert r.0 == s1.(binary := Some(Partial));
    }
  }

  lemma WriteSupportKeepsCoherent(c: Cache, t: Texts, e: SetupEnv)
    requires Coherent(c)
    ensures Coherent(WriteSupport(c, t, e).0)
    ensures WriteSupport(c, t, e).1 ==>
      var d := WriteSupport(c, t, e).0;
      d.support.Some? && d.caps.Some? && d.support.value.wrapper == Some(t.wrapper) && d.support.value.conf == Some(t.conf)
  {
  }

  lemma RestoreKeepsCoherent(c: Cache, t: Texts, image: string, se: SetupEnv, ee: ExtractEnv)
    requires Coherent(c) && Safe(ee, image)
    ensures Coherent(Restore(c, t, image, se, ee).0)
    ensures Restore(c, t, image, se, ee).1 ==>
      var d := Restore(c, t, image, se, ee).0;
      && d.support.Some? && d.support.value.binary == Some(Complete(image)) && d.support.value.stamp == Some(image)
      && XmlFrom(d.caps, image)
  {
    WriteSupportKeepsCoherent(c, t, se);
    var w := WriteSupport(c, t, se);
    if w.1 && se.logsMkdir {
      var d := w.0.(logs := true);
      EnsureKeepsCoherent(d, image, ee);
      if Ensure(d, image, ee).1 {
        EnsureGivesImage(d, image, ee);
      }
    }
  }

  lemma RemoveKeepsCoherent(c: Cache, target: Target, how: Removal)
    requires Coherent(c)
    ensures Coherent(Remove(c, target, how))
  {
  }

  lemma {:induction false} RemoveAllKeepsCoherent(c: Cache, targets: seq<Target>, e: CleanEnv)
    requires Coherent(c)
    ensures Coherent(RemoveAll(c, targets, e).0)
    decreases |targets|
  {
    if targets != [] {
      RemoveKeepsCoherent(c, targets[0], e.removal(targets[0]));
      RemoveAllKeepsCoherent(Remove(c, targets[0], e.removal(targets[0])), targets[1..], e);
    }
  }

  lemma StepKeepsCoherent(c: Cache, t: Texts, ev: Event)
    requires Coherent(c) && SafeEvent(ev)
    ensures Coherent(Step(c, t, ev))
  {
    match ev
    case Create(image, se, ee) => RestoreKeepsCoherent(c, t, image, se, ee);
    case Start(inspectOk, image, se, ee, startOk, probes) =>
      if inspectOk && image != "" {
        RestoreKeepsCoherent(c, t, image, se, ee);
      }
    case CleanUp(e) => RemoveAllKeepsCoherent(c, Present(c, TARGETS), e);
    case GuestWrites(_, _, _) =>
  }

  /** Stamp coherence over every run of create, start, clean-cache and guest writes whose
      failures are safe. */
  lemma {:induction false} RunsStayCoherent(c: Cache, t: Texts, events: seq<Event>)
    requires Coherent(c) && forall i :: 0 <= i < |events| ==> SafeEvent(events[i])
    ensures Coherent(Run(c, t, events))
    decreases |events|
  {
    if events != [] {
      StepKeepsCoherent(c, t, events[0]);
      RunsStayCoherent(Step(c, t, events[0]), t, events[1..]);
    }
  }

  /** Main theorem: after any such run from an empty cache, a restore for an image that succeeds
      leaves the complete binary of that image, stamped, with no foreign capability file. */
  lemma BinaryMatchesImage(t: Texts, events: seq<Event>, image: string, se: SetupEnv, ee: ExtractEnv)
    requires forall i :: 0 <= i < |events| ==> SafeEvent(events[i])
    requires Safe(ee, image) && Restore(Run(EMPTY, t, events), t, image, se, ee).1
    ensures var d := Restore(Run(EMPTY, t, events), t, image, se, ee).0;
      && d.support.Some? && d.support.value.binary == Some(Complete(image)) && d.support.value.stamp == Some(image)
      && XmlFrom(d.caps, image)
  {
    RunsStayCoherent(EMPTY, t, events);
    RestoreKeepsCoherent(Run(EMPTY, t, events), t, image, se, ee);
  }

  predicate ReliableEvent(ev: Event) {
    match ev
    case Create(_, _, ee) => Reliable(ee)
    case Start(_, _, _, ee, _, _) => Reliable(ee)
    case _ => true
  }

  /** In particular when no extraction of the run failed to remove, write or stamp what it should:
      directory, container and archive failures, and clean-cache failures, may still happen. */
  lemma ReliableRunsMatch(t: Texts, events: seq<Event>, image: string, se: SetupEnv, ee: ExtractEnv)
    requires (forall i :: 0 <= i < |events| ==> ReliableEvent(events[i])) && Reliable(ee)
    requires Restore(Run(EMPTY, t, events), t, image, se, ee).1
    ensures var d := Restore(Run(EMPTY, t, events), t, image, se, ee).0;
      && d.support.Some? && d.support.value.binary == Some(Complete(image)) && d.support.value.stamp == Some(image)
      && XmlFrom(d.caps, image)
  {
    hide Run, Restore, Reliable, Safe;
    forall i | 0 <= i < |events|
      ensures SafeEvent(events[i])
    {
      match events[i]
      case Create(image', _, ee') => ReliableIsSafe(ee', image');
      case Start(_, image', _, ee', _, _) => ReliableIsSafe(ee', image');
      case _ =>
    }
    ReliableIsSafe(ee, image);
    BinaryMatchesImage(t, events, image, se, ee);
  }

  // ----- Self-repair -----

  predicate SourceExists(c: Cache, s: Source) {
    match s
    case SupportDirectory => c.support.Some?
    case SupportFile(file) =>
      && c.support.Some?
      && (file == "qemu.conf" ==> c.support.value.conf.Some?)
      && (file == "qemu-kvm-wrapper" ==> c.support.value.wrapper.Some?)
      && (file == "qemu-kvm-real" ==> c.support.value.binary.Some?)
    case CapsDirectory => c.caps.Some?
    case LogsDirectory => c.logs
    case _ => true
  }

  predicate Repaired(c: Cache, t: Texts) {
    && (forall i :: 0 <= i < |ALL_FIXED| ==> SourceExists(c, ALL_FIXED[i].source))
    && c.support.Some? && c.support.value.wrapper == Some(t.wrapper) && c.support.value.conf == Some(t.conf)
  }

  lemma RestoreRepairs(c: Cache, t: Texts, image: string, se: SetupEnv, ee: ExtractEnv)
    requires Restore(c, t, image, se, ee).1
    ensures Repaired(Restore(c, t, image, se, ee).0, t)
  {
    var d := WriteSupport(c, t, se).0.(logs := true);
    var s := d.support.value;
    ReadArchiveShape(if ee.removeBinaryOk then s.(binary := None) else s, image, ee.entries, ee);
  }

  /** Self-repair: after any run at all, failures included, a StartVM that reaches the container
      start has every source of the fixed mounts in place (with or without the log directory),
      and the wrapper and qemu.conf equal to their embedded texts. */
  lemma StartFindsItsMounts(t: Texts, events: seq<Event>, ev: Event, debug: bool)
    requires ev.Start? && BeforeStart(Run(EMPTY, t, events), t, ev).1
    ensures var c := BeforeStart(Run(EMPTY, t, events), t, ev).0;
      && Repaired(c, t)
      && forall i :: 0 <= i < |FixedMounts(debug)| ==> SourceExists(c, FixedMounts(debug)[i].source)
  {
    RestoreRepairs(Run(EMPTY, t, events), t, ev.image, ev.setup, ev.extract);
    assert forall i :: 0 <= i < |FixedMounts(debug)| ==> FixedMounts(debug)[i] == ALL_FIXED[i];
  }

  // ----- clean-cache -----

  predicate Gone(c: Cache, target: Target) { !Has(c, target) }

  /** clean-cache either erases everything, stops at the first failing directory with the later
      ones untouched, or changes nothing. */
  lemma CleanOutcome(c: Cache, e: CleanEnv)
    ensures var (d, r) := Clean(c, e);
      && (r.Cleaned? ==> d == EMPTY)
      && (r.NothingToClean? <==> c == EMPTY)
      && (r.PromptFailed? || r.Aborted? || r.NothingToClean? ==> d == c)
      && (r.RemovalFailed? ==> exists k :: 0 <= k < |TARGETS| && StoppedAt(c, d, r.target, k))
  {
    var present := Present(c, TARGETS);
    PresentIsAll(c);
    if present != [] && (e.force || (e.answer.Some? && Confirms(e.answer.value))) {
      var j := RemoveAllOutcome(c, e, 0);
      assert TARGETS[0..] == TARGETS;
    }
  }

  predicate StoppedAt(c: Cache, d: Cache, target: Target, k: int)
    requires 0 <= k < |TARGETS|
  {
    && TARGETS[k] == target
    && (forall i :: 0 <= i < k ==> Gone(d, TARGETS[i]))
    && (forall i :: k < i < |TARGETS| ==> SameTarget(c, d, TARGETS[i]))
  }

  predicate SameTarget(c: Cache, d: Cache, target: Target) {
    match target
    case Caps => c.caps == d.caps
    case SupportDir => c.support == d.support
    case Logs => c.logs == d.logs
    case ContainerDisks => c.containerDisks == d.containerDisks
    case ResizedDisks => c.resizedDisks == d.resizedDisks
  }

  lemma PresentIsAll(c: Cache)
    ensures Present(c, TARGETS) == [] <==> c == EMPTY
  {
    var t1, t2, t3, t4 := TARGETS[1..], TARGETS[2..], TARGETS[3..], TARGETS[4..];
    assert t1[1..] == t2 && t2[1..] == t3 && t3[1..] == t4 && t4[1..] == [];
    assert Present(c, t4) == [] <==> Gone(c, ResizedDisks);
    assert Present(c, t3) == [] <==> Gone(c, ContainerDisks) && Gone(c, ResizedDisks);
    assert Present(c, t2) == [] <==> Gone(c, Logs) && Gone(c, ContainerDisks) && Gone(c, ResizedDisks);
  }

  lemma AllGone(c: Cache)
    requires forall i :: 0 <= i < |TARGETS| ==> Gone(c, TARGETS[i])
    ensures c == EMPTY
  {
    assert Gone(c, TARGETS[0]) && Gone(c, TARGETS[1]) && Gone(c, TARGETS[2]) && Gone(c, TARGETS[3]) && Gone(c, TARGETS[4]);
  }

  lemma GoneAfterRemove(c: Cache, k: nat, how: Removal)
    requires k < |TARGETS| && forall i :: 0 <= i < k ==> Gone(c, TARGETS[i])
    ensures forall i :: 0 <= i < k ==> Gone(Remove(c, TARGETS[k], how), TARGETS[i])
    ensures how.Removed? ==> Gone(Remove(c, TARGETS[k], how), TARGETS[k])
    ensures forall i :: k < i < |TARGETS| ==> SameTarget(c, Remove(c, TARGETS[k], how), TARGETS[i])
  {
    assert forall i :: 0 <= i < |TARGETS| && i != k ==> TARGETS[i] != TARGETS[k];
  }

  lemma StoppedLater(c: Cache, c1: Cache, d: Cache, target: Target, k: nat, j: nat)
    requires k < j < |TARGETS| && StoppedAt(c1, d, target, j)
    requires forall i :: k < i < |TARGETS| ==> SameTarget(c, c1, TARGETS[i])
    ensures StoppedAt(c, d, target, j)
  {
  }

  lemma {:induction false} RemoveAllOutcome(c: Cache, e: CleanEnv, k: nat) returns (j: nat)
    requires k <= |TARGETS| && forall i :: 0 <= i < k ==> Gone(c, TARGETS[i])
    ensures var (d, r) := RemoveAll(c, Present(c, TARGETS[k..]), e);
      && (r.Cleaned? || r.RemovalFailed?)
      && (r.Cleaned? ==> d == EMPTY)
      && (r.RemovalFailed? ==> k <= j < |TARGETS| && StoppedAt(c, d, r.target, j))
    decreases |TARGETS| - k
  {
    j := k;
    if k == |TARGETS| {
      assert TARGETS[k..] == [];
      AllGone(c);
      return;
    }
    assert TARGETS[k..][0] == TARGETS[k] && TARGETS[k..][1..] == TARGETS[k + 1..];
    if !Has(c, TARGETS[k]) {
      j := RemoveAllOutcome(c, e, k + 1);
    } else {
      var how := e.removal(TARGETS[k]);
      var c1 := Remove(c, TARGETS[k], how);
      GoneAfterRemove(c, k, how);
      PresentAfterRemove(c, TARGETS[k], how, k + 1);
      assert Present(c, TARGETS[k..]) == [TARGETS[k]] + Present(c1, TARGETS[k + 1..]);
      if how.Removed? {
        j := RemoveAllOutcome(c1, e, k + 1);
        var (d, r) := RemoveAll(c1, Present(c1, TARGETS[k + 1..]), e);
        if r.RemovalFailed? {
          StoppedLater(c, c1, d, r.target, k, j);
        }
      }
    }
  }

  /** Directory i is the first of those from k on that is there and cannot be removed. */
  predicate FirstStuck(c: Cache, e: CleanEnv, k: int, i: int) {
    && 0 <= k <= i < |TARGETS| && Has(c, TARGETS[i]) && e.removal(TARGETS[i]).StoppedWith?
    && forall j :: k <= j < i && Has(c, TARGETS[j]) ==> e.removal(TARGETS[j]).Removed?
  }

  lemma {:induction false} RemovesInOrder(c: Cache, e: CleanEnv, k: nat)
    requires k <= |TARGETS|
    ensures var r := RemoveAll(c, Present(c, TARGETS[k..]), e).1;
      && (r.Cleaned? <==> forall i :: k <= i < |TARGETS| && Has(c, TARGETS[i]) ==> e.removal(TARGETS[i]).Removed?)
      && (!r.Cleaned? ==> r.RemovalFailed? && exists i :: FirstStuck(c, e, k, i) && r.target == TARGETS[i])
    decreases |TARGETS| - k
  {
    hide Remove, Has;
    if k == |TARGETS| {
      assert TARGETS[k..] == [];
      return;
    }
    var t := TARGETS[k];
    assert TARGETS[k..][0] == t && TARGETS[k..][1..] == TARGETS[k + 1..];
    TargetsDiffer(k);
    if !Has(c, t) {
      RemovesInOrder(c, e, k + 1);
      assert forall i :: FirstStuck(c, e, k + 1, i) ==> FirstStuck(c, e, k, i);
    } else {
      var how := e.removal(t);
      var c1 := Remove(c, t, how);
      PresentAfterRemove(c, t, how, k + 1);
      assert Present(c, TARGETS[k..]) == [t] + Present(c1, TARGETS[k + 1..]);
      if how.Removed? {
        RemovesInOrder(c1, e, k + 1);
        forall i | k < i < |TARGETS|
          ensures Has(c1, TARGETS[i]) == Has(c, TARGETS[i])
        {
          OthersRemain(c, t, how, TARGETS[i]);
        }
        assert forall i :: FirstStuck(c1, e, k + 1, i) ==> FirstStuck(c, e, k, i);
      } else {
        assert FirstStuck(c, e, k, k);
      }
    }
  }

  lemma TargetsDiffer(k: nat)
    requires k < |TARGETS|
    ensures forall i :: k < i < |TARGETS| ==> TARGETS[i] != TARGETS[k]
  {
  }

  /**
   What decides the outcome.  Nothing to clean exactly on an empty cache; otherwise, without
   --force, the prompt fails exactly when no answer can be read, and the command aborts exactly
   when the answer, trimmed, is neither "y" nor "Y"; in all other cases the directories are
   removed, all of them exactly when each one that is there can be, else up to the first that
   cannot.
   */
  lemma CleanDecidedBy(c: Cache, e: CleanEnv)
    ensures var r := Clean(c, e).1;
      var asked := c != EMPTY && !e.force;
      var no := e.answer.Some? && TrimSpace(e.answer.value) !in {"y", "Y"};
      var removes := c != EMPTY && (e.force || (e.answer.Some? && TrimSpace(e.answer.value) in {"y", "Y"}));
      && (r.NothingToClean? <==> c == EMPTY)
      && (r.PromptFailed? <==> asked && e.answer.None?)
      && (r.Aborted? <==> asked && no)
      && (r.Cleaned? || r.RemovalFailed? <==> removes)
      && (r.Cleaned? <==> removes && forall t: Target :: Has(c, t) ==> e.removal(t).Removed?)
      && (r.RemovalFailed? ==>
            && Has(c, r.target) && e.removal(r.target).StoppedWith?
            && forall t: Target :: Has(c, t) && Rank(t) < Rank(r.target) ==> e.removal(t).Removed?)
  {
    hide Has, RemoveAll, Confirms, TrimSpace;
    PresentIsAll(c);
    RemovesInOrder(c, e, 0);
    assert TARGETS[0..] == TARGETS;
    if e.answer.Some? {
      ConfirmsExactly(e.answer.value);
    }
    if Clean(c, e).1.RemovalFailed? {
      var i :| FirstStuck(c, e, 0, i) && Clean(c, e).1.target == TARGETS[i];
      StuckInOrder(c, e, i);
    }
    if forall i :: 0 <= i < |TARGETS| && Has(c, TARGETS[i]) ==> e.removal(TARGETS[i]).Removed? {
      forall t: Target | Has(c, t)
        ensures e.removal(t).Removed?
      {
        var k := IndexOfTarget(t);
      }
    }
  }

  /** The order of removal. */
  function Rank(t: Target): nat {
    match t case Caps => 0 case SupportDir => 1 case Logs => 2 case ContainerDisks => 3 case ResizedDisks => 4
  }

  lemma IndexOfTarget(t: Target) returns (k: nat)
    ensures k < |TARGETS| && TARGETS[k] == t && k == Rank(t)
  {
    k := Rank(t);
  }

  lemma StuckInOrder(c: Cache, e: CleanEnv, i: int)
    requires FirstStuck(c, e, 0, i)
    ensures forall t: Target :: Has(c, t) && Rank(t) < Rank(TARGETS[i]) ==> e.removal(t).Removed?
  {
    hide Has;
    var own := IndexOfTarget(TARGETS[i]);
    RankOfIndex(i);
    forall t: Target | Has(c, t) && Rank(t) < Rank(TARGETS[i])
      ensures e.removal(t).Removed?
    {
      var k := IndexOfTarget(t);
    }
  }

  lemma RankOfIndex(i: nat)
    requires i < |TARGETS|
    ensures Rank(TARGETS[i]) == i
  {
  }

  lemma ConfirmsExactly(answer: string)
    ensures Confirms(answer) <==> TrimSpace(answer) in {"y", "Y"}
  {
    hide TrimSpace;
    var t := TrimSpace(answer);
    assert ToLower("y") == "y" && ToLower("Y") == "y";
    if EqualFold(t, "y") {
      assert |t| == 1 && LowerChar(t[0]) == 'y';
      assert t == [t[0]];
    }
  }

  lemma OthersRemain(c: Cache, target: Target, how: Removal, other: Target)
    requires other != target
    ensures Has(Remove(c, target, how), other) == Has(c, other)
  {
  }

  lemma {:induction false} PresentAfterRemove(c: Cache, target: Target, how: Removal, k: nat)
    requires k <= |TARGETS| && forall i :: k <= i < |TARGETS| ==> TARGETS[i] != target
    ensures Present(Remove(c, target, how), TARGETS[k..]) == Present(c, TARGETS[k..])
    decreases |TARGETS| - k
  {
    hide Remove, Has;
    if k < |TARGETS| {
      assert TARGETS[k..][0] == TARGETS[k] && TARGETS[k..][1..] == TARGETS[k + 1..];
      OthersRemain(c, target, how, TARGETS[k]);
      PresentAfterRemove(c, target, how, k + 1);
    } else {
      assert TARGETS[k..] == [];
    }
  }
}
