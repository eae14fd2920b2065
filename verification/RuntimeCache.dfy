/**
 The runtime-support cache under `~/.cache/podvirt`, shared by all VMs: the wrapper script and
 `qemu.conf`, the QEMU binary extracted from a launcher image with the stamp that names the
 image, and libvirt's capability files.  It is refreshed by create and start and erased by
 clean-cache; every foreign call and every file operation may fail.
 */
module RuntimeCache {
  import opened Prelude
  import opened Text

  datatype Binary = Complete(image: string) | Partial

  /** `qemu-support/`. */
  datatype Support = Support(wrapper: Option<string>, conf: Option<string>, binary: Option<Binary>, stamp: Option<string>)

  /** The whole cache.  A capability file is recorded with the image it was produced under. */
  datatype Cache = Cache(support: Option<Support>, caps: Option<map<string, string>>, logs: bool,
                         containerDisks: bool, resizedDisks: bool)

  const EMPTY: Cache := Cache(None, None, false, false, false)
  const EMPTY_SUPPORT: Support := Support(None, None, None, None)

  /** The two texts compiled into the program. */
  datatype Texts = Texts(wrapper: string, conf: string)

  predicate IsXml(name: string) {
    |name| >= 4 && name[|name| - 4..] == ".xml"
  }

  // ----- Environment: how each foreign call or file operation turns out -----

  /** A failed write leaves anything behind, or nothing. */
  datatype Write = Written | WriteFailed(left: Option<string>)

  datatype SetupEnv = SetupEnv(supportMkdir: bool, capsMkdir: bool, wrapperReadable: bool,
                               wrapperWrite: Write, confWrite: Write, logsMkdir: bool)

  /** One archive entry, by base name, or an unreadable header. */
  datatype Entry = Entry(name: string, openOk: bool, copyOk: bool) | BadHeader

  datatype ExtractEnv = ExtractEnv(stampReadable: bool, removeBinaryOk: bool, stuckFiles: set<string>,
                                   createOk: bool, archiveOk: bool, entries: seq<Entry>,
                                   cleanupOk: bool, stampWrite: Write)

  /** Removals and the stamp write succeed. */
  predicate Reliable(e: ExtractEnv) {
    e.removeBinaryOk && e.stuckFiles == {} && e.cleanupOk && e.stampWrite.Written?
  }

  function AfterWrite(w: Write, text: string): Option<string> {
    match w case Written => Some(text) case WriteFailed(left) => left
  }

  // ----- writeQemuSupport -----

  function WriteSupport(c: Cache, t: Texts, e: SetupEnv): (r: (Cache, bool)) {
    if !e.supportMkdir then (c, false)
    else
      var s := if c.support.Some? then c.support.value else EMPTY_SUPPORT;
      var c1 := c.(support := Some(s));
      if !e.capsMkdir then (c1, false)
      else
        var c2 := c1.(caps := Some(if c.caps.Some? then c.caps.value else map[]));
        var upToDate := e.wrapperReadable && s.wrapper == Some(t.wrapper);
        var s1 := if upToDate then s else s.(wrapper := AfterWrite(e.wrapperWrite, t.wrapper));
        if !upToDate && !e.wrapperWrite.Written? then (c2.(support := Some(s1)), false)
        else (c2.(support := Some(s1.(conf := AfterWrite(e.confWrite, t.conf)))), e.confWrite.Written?)
  }

  // ----- ensureQemuBinary -----

  predicate Current(s: Support, image: string, e: ExtractEnv) {
    e.stampReadable && s.stamp == Some(image) && s.binary.Some?
  }

  function DropXml(caps: map<string, string>, stuck: set<string>): map<string, string> {
    map f | f in caps && !(IsXml(f) && f !in stuck) :: caps[f]
  }

  function ReadArchive(s: Support, image: string, entries: seq<Entry>, e: ExtractEnv): (r: (Support, bool)) {
    if entries == [] then (s, false)
    else match entries[0]
      case BadHeader => (s, false)
      case Entry(name, openOk, copyOk) =>
        if name != "qemu-kvm" then ReadArchive(s, image, entries[1..], e)
        else if !openOk then (s, false)
        else if !copyOk then (s.(binary := if e.cleanupOk then None else Some(Partial)), false)
        else (s.(binary := Some(Complete(image)), stamp := AfterWrite(e.stampWrite, image)), e.stampWrite.Written?)
  }

  function Ensure(c: Cache, image: string, e: ExtractEnv): (r: (Cache, bool))
    requires c.support.Some? && c.caps.Some?
  {
    var s := c.support.value;
    if Current(s, image, e) then (c, true)
    else
      var s1 := if e.removeBinaryOk then s.(binary := None) else s;
      var c1 := c.(support := Some(s1), caps := Some(DropXml(c.caps.value, e.stuckFiles)));
      if !e.createOk || !e.archiveOk then (c1, false)
      else
        var r := ReadArchive(s1, image, e.entries, e);
        (c1.(support := Some(r.0)), r.1)
  }

  // ----- restoreRuntimeSupport -----

  function Restore(c: Cache, t: Texts, image: string, se: SetupEnv, ee: ExtractEnv): (r: (Cache, bool)) {
    var w := WriteSupport(c, t, se);
    if !w.1 then w
    else if !se.logsMkdir then (w.0, false)
    else Ensure(w.0.(logs := true), image, ee)
  }

  /** The same steps on the files themselves. */
  class SupportFiles {
    var support: Option<Support>
    var caps: Option<map<string, string>>
    var logs: bool
    var containerDisks: bool
    var resizedDisks: bool

    function Snapshot(): Cache
      reads this
    {
      Cache(support, caps, logs, containerDisks, resizedDisks)
    }

    method WriteQemuSupport(t: Texts, e: SetupEnv) returns (ok: bool)
      modifies this
      ensures (Snapshot(), ok) == WriteSupport(old(Snapshot()), t, e)
    {
      if !e.supportMkdir {
        return false;
      }
      if support.None? {
        support := Some(EMPTY_SUPPORT);
      }
      if !e.capsMkdir {
        return false;
      }
      if caps.None? {
        caps := Some(map[]);
      }
      var existing := support.value.wrapper;
      if !e.wrapperReadable || existing != Some(t.wrapper) {
        support := Some(support.value.(wrapper := AfterWrite(e.wrapperWrite, t.wrapper)));
        if !e.wrapperWrite.Written? {
          return false;
        }
      }
      support := Some(support.value.(conf := AfterWrite(e.confWrite, t.conf)));
      ok := e.confWrite.Written?;
    }

    method EnsureQemuBinary(image: string, e: ExtractEnv) returns (ok: bool)
      requires support.Some? && caps.Some?
      modifies this
      ensures (Snapshot(), ok) == Ensure(old(Snapshot()), image, e)
    {
      if e.stampReadable && support.value.stamp == Some(image) && support.value.binary.Some? {
        return true;
      }
      if e.removeBinaryOk {
        support := Some(support.value.(binary := None));
      }
      RemoveCapabilityFiles(e.stuckFiles);
      if !e.createOk || !e.archiveOk {
        return false;
      }
      ghost var before := support.value;
      for i := 0 to |e.entries|
        invariant support == Some(before)
        invariant caps == Some(DropXml(old(caps).value, e.stuckFiles))
        invariant unchanged(`logs) && unchanged(`containerDisks) && unchanged(`resizedDisks)
        invariant ReadArchive(before, image, e.entries, e) == ReadArchive(before, image, e.entries[i..], e)
      {
        assert e.entries[i..][0] == e.entries[i] && e.entries[i..][1..] == e.entries[i + 1..];
        match e.entries[i]
        case BadHeader =>
          return false;
        case Entry(name, openOk, copyOk) =>
          if name == "qemu-kvm" {
            if !openOk {
              return false;
            }
            if !copyOk {
              support := Some(support.value.(binary := Some(Partial)));
              if e.cleanupOk {
                support := Some(support.value.(binary := None));
              }
              return false;
            }
            support := Some(support.value.(binary := Some(Complete(image))));
            support := Some(support.value.(stamp := AfterWrite(e.stampWrite, image)));
            return e.stampWrite.Written?;
          }
      }
      ok := false;
    }

    /** The loop over the directory entries, in whatever order they are listed. */
    method RemoveCapabilityFiles(stuck: set<string>)
      requires caps.Some?
      modifies this`caps
      ensures caps == Some(DropXml(old(caps).value, stuck))
    {
      var all := caps.value;
      var left := all.Keys;
      while left != {}
        invariant left <= all.Keys
        invariant caps.Some? && caps.value == map f | f in all && (f in left || !(IsXml(f) && f !in stuck)) :: all[f]
        decreases |left|
      {
        var f :| f in left;
        left := left - {f};
        if IsXml(f) && f !in stuck {
          caps := Some(caps.value - {f});
        }
      }
      assert caps.value == DropXml(all, stuck);
    }

    method RestoreRuntimeSupport(t: Texts, image: string, se: SetupEnv, ee: ExtractEnv) returns (ok: bool)
      modifies this
      ensures (Snapshot(), ok) == Restore(old(Snapshot()), t, image, se, ee)
    {
      ok := WriteQemuSupport(t, se);
      if !ok {
        return;
      }
      if !se.logsMkdir {
        return false;
      }
      logs := true;
      ok := EnsureQemuBinary(image, ee);
    }

    method ListPresent() returns (present: seq<Target>)
      ensures present == Present(Snapshot(), TARGETS)
    {
      present := [];
      for i := 0 to |TARGETS|
        invariant present + Present(Snapshot(), TARGETS[i..]) == Present(Snapshot(), TARGETS)
      {
        assert TARGETS[i..][0] == TARGETS[i] && TARGETS[i..][1..] == TARGETS[i + 1..];
        if Has(Snapshot(), TARGETS[i]) {
          present := present + [TARGETS[i]];
        }
      }
      assert TARGETS[|TARGETS|..] == [];
    }

    /** `doCleanCache`: list what is there, ask, then remove in order until the first error. */
    method DoCleanCache(e: CleanEnv) returns (r: CleanResult)
      modifies this
      ensures (Snapshot(), r) == Clean(old(Snapshot()), e)
    {
      var present := ListPresent();
      if |present| == 0 {
        return NothingToClean;
      }
      if !e.force {
        if e.answer.None? {
          return PromptFailed;
        }
        var resp := e.answer.value;
        if !EqualFold(TrimSpace(resp), "y") {
          return Aborted;
        }
      }
      r := RemovePresent(present, e);
    }

    method RemovePresent(present: seq<Target>, e: CleanEnv) returns (r: CleanResult)
      modifies this
      ensures (Snapshot(), r) == RemoveAll(old(Snapshot()), present, e)
    {
      hide Remove;
      ghost var before := Snapshot();
      for i := 0 to |present|
        invariant RemoveAll(Snapshot(), present[i..], e) == RemoveAll(before, present, e)
      {
        assert present[i..][0] == present[i] && present[i..][1..] == present[i + 1..];
        ghost var now := Snapshot();
        RemoveTarget(present[i], e.removal(present[i]));
        assert RemoveAll(now, present[i..], e)
            == if e.removal(present[i]).Removed? then RemoveAll(Snapshot(), present[i + 1..], e)
               else (Snapshot(), RemovalFailed(present[i]));
        if !e.removal(present[i]).Removed? {
          return RemovalFailed(present[i]);
        }
      }
      r := Cleaned;
    }

    method RemoveTarget(t: Target, how: Removal)
      modifies this
      ensures Snapshot() == Remove(old(Snapshot()), t, how)
    {
      match t
      case Caps => caps := Remove(Snapshot(), t, how).caps;
      case SupportDir => support := Remove(Snapshot(), t, how).support;
      case Logs => logs := logs && !how.Removed?;
      case ContainerDisks => containerDisks := containerDisks && !how.Removed?;
      case ResizedDisks => resizedDisks := resizedDisks && !how.Removed?;
    }
  }

  // ----- clean-cache -----

  datatype Target = Caps | SupportDir | Logs | ContainerDisks | ResizedDisks

  const TARGETS: seq<Target> := [Caps, SupportDir, Logs, ContainerDisks, ResizedDisks]

  /** A failed removal leaves the directory with any part of its files. */
  datatype Removal = Removed | StoppedWith(files: set<string>)

  /** The answer is the line read after the prompt; none when reading fails. */
  datatype CleanEnv = CleanEnv(force: bool, answer: Option<string>, removal: Target -> Removal)

  /** `confirmAction`. */
  predicate Confirms(answer: string) {
    EqualFold(TrimSpace(answer), "y")
  }

  datatype CleanResult = NothingToClean | PromptFailed | Aborted | Cleaned | RemovalFailed(target: Target)

  predicate Has(c: Cache, t: Target) {
    match t
    case Caps => c.caps.Some?
    case SupportDir => c.support.Some?
    case Logs => c.logs
    case ContainerDisks => c.containerDisks
    case ResizedDisks => c.resizedDisks
  }

  function Present(c: Cache, targets: seq<Target>): seq<Target> {
    if targets == [] then []
    else if Has(c, targets[0]) then [targets[0]] + Present(c, targets[1..])
    else Present(c, targets[1..])
  }

  function KeepFile<T>(f: Option<T>, name: string, kept: set<string>): Option<T> {
    if name in kept then f else None
  }

  function Remove(c: Cache, t: Target, how: Removal): Cache {
    match t
    case Caps =>
      c.(caps := if how.Removed? || c.caps.None? then None
                 else Some(map f | f in c.caps.value && f in how.files :: c.caps.value[f]))
    case SupportDir =>
      c.(support := if how.Removed? || c.support.None? then None
                    else var s := c.support.value;
                      Some(Support(KeepFile(s.wrapper, "qemu-kvm-wrapper", how.files), KeepFile(s.conf, "qemu.conf", how.files),
                                   KeepFile(s.binary, "qemu-kvm-real", how.files), KeepFile(s.stamp, "qemu-kvm-real.image", how.files))))
    case Logs => c.(logs := c.logs && !how.Removed?)
    case ContainerDisks => c.(containerDisks := c.containerDisks && !how.Removed?)
    case ResizedDisks => c.(resizedDisks := c.resizedDisks && !how.Removed?)
  }

  function RemoveAll(c: Cache, targets: seq<Target>, e: CleanEnv): (Cache, CleanResult)
    decreases |targets|
  {
    if targets == [] then (c, Cleaned)
    else
      var how := e.removal(targets[0]);
      var c1 := Remove(c, targets[0], how);
      if how.Removed? then RemoveAll(c1, targets[1..], e) else (c1, RemovalFailed(targets[0]))
  }

  function Clean(c: Cache, e: CleanEnv): (Cache, CleanResult) {
    var present := Present(c, TARGETS);
    if present == [] then (c, NothingToClean)
    else if !e.force && e.answer.None? then (c, PromptFailed)
    else if !e.force && !Confirms(e.answer.value) then (c, Aborted)
    else RemoveAll(c, present, e)
  }
}
