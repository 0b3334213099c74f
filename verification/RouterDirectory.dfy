/** The calls of src-tauri/src/codex/sync.rs on the files themselves, proved against the state
    sequences of module RouterConfig.  Every file operation may succeed, fail with an error, or
    be the last thing the process does. */
module RouterDirectory {
  import opened Prelude
  import opened RouterConfig

  datatype Status = Done | Failed | Crashed

  datatype FileName = ConfigFile | SnapshotFile | MarkerFile

  function Replaced(f: Files, name: FileName, content: Content): Files {
    match name
    case ConfigFile => f.(config := Some(content))
    case SnapshotFile => f.(snapshot := Some(content))
    case MarkerFile => f.(marker := true)
  }

  function RemovedFile(f: Files, name: FileName): Files {
    match name
    case ConfigFile => f.(config := None)
    case SnapshotFile => f.(snapshot := None)
    case MarkerFile => f.(marker := false)
  }

  const ABSENT := Bytes([97, 98, 115, 101, 110, 116], None)

  class Directory {
    var files: Files

    constructor (initial: Files)
      ensures files == initial
    {
      files := initial;
    }

    /** atomic_router_replace */
    method Replace(name: FileName, content: Content) returns (status: Status)
      modifies this
      ensures files == if status.Done? then Replaced(old(files), name, content) else old(files)
    {
      status := *;
      if status.Done? { files := Replaced(files, name, content); }
    }

    /** std::fs::remove_file */
    method Remove(name: FileName) returns (status: Status)
      modifies this
      ensures files == if status.Done? then RemovedFile(old(files), name) else old(files)
    {
      status := *;
      if status.Done? { files := RemovedFile(files, name); }
    }

    /** std::fs::read of a file that exists. */
    method Read(content: Content) returns (status: Status, read: Option<Content>)
      ensures status.Done? ==> read == Some(content)
      ensures !status.Done? ==> read == None
    {
      status := *;
      read := if status.Done? then Some(content) else None;
    }

    method TakeSnapshot() returns (status: Status, ghost cut: nat)
      requires files.snapshot.None?
      modifies this
      ensures cut < |SnapshotStates(old(files))| && files == SnapshotStates(old(files))[cut]
      ensures status.Done? <==> cut == |SnapshotStates(old(files))| - 1
    {
      cut := 0;
      var original := EMPTY_FILE;
      if files.config.Some? {
        if files.marker {
          status := Remove(MarkerFile);
          if !status.Done? { return; }
          cut := 1;
        }
        var read;
        status, read := Read(files.config.value);
        if !status.Done? { return; }
        original := read.value;
      } else {
        status := Replace(MarkerFile, ABSENT);
        if !status.Done? { return; }
        cut := 1;
      }
      status := Replace(SnapshotFile, original);
      if status.Done? { cut := cut + 1; }
    }

    /** begin_codex_router_config_at_with_secret; `readable` says whether the rewrite can read
        the configuration it is about to replace. */
    method BeginRouting(url: string, secret: string, readable: bool)
      returns (status: Status, ghost cut: nat, ghost undo: nat)
      modifies this
      ensures cut < |BeginStates(old(files), url, secret, readable)|
      ensures files == Exec(old(files), Begin(url, secret, readable, cut, undo))
      ensures status.Done? <==> cut == |BeginStates(old(files), url, secret, readable)| - 1
      ensures status.Done? ==>
        && Parse(files.config).Some?
        && Routes(DocumentOf(if readable then old(files).config else None), Parse(files.config).value, url, secret)
    {
      hide RouterDocument, Routes;
      ghost var before := files;
      var createdSnapshot := files.snapshot.None?;
      cut, undo := 0, 0;
      if createdSnapshot {
        status, cut := TakeSnapshot();
        if !status.Done? { return; }
      }
      var existing := if readable then files.config else None;
      WrittenRoutes(existing, url, secret);
      status := Replace(ConfigFile, Rendered(RouterDocument(existing, url, secret)));
      if status.Done? {
        cut := cut + 1;
      } else if status.Failed? && createdSnapshot {
        var ignored;
        ignored, undo := RestoreOriginal();
      }
    }

    /** restore_codex_router_config_at */
    method RestoreOriginal() returns (status: Status, ghost cut: nat)
      modifies this
      ensures cut < |RestoreStates(old(files))| && files == RestoreStates(old(files))[cut]
      ensures status.Done? <==> cut == |RestoreStates(old(files))| - 1
    {
      cut := 0;
      if files.snapshot.None? {
        if files.marker {
          status := Remove(MarkerFile);
          if !status.Done? { return; }
          cut := 1;
        }
        return Done, cut;
      }
      if files.marker {
        if files.config.Some? {
          status := Remove(ConfigFile);
          if !status.Done? { return; }
          cut := 1;
        }
      } else {
        var read;
        status, read := Read(files.snapshot.value);
        if !status.Done? { return; }
        status := Replace(ConfigFile, read.value);
        if !status.Done? { return; }
        cut := 1;
      }
      status := Remove(SnapshotFile);
      if !status.Done? { return; }
      cut := cut + 1;
      if files.marker {
        status := Remove(MarkerFile);
        if !status.Done? { return; }
        cut := cut + 1;
      }
    }

    /** recover_stale_codex_router_config_at; `restored` is its answer when it completes. */
    method RecoverStale(readable: bool) returns (status: Status, restored: bool, ghost cut: nat)
      modifies this
      ensures cut < |RecoverStates(old(files), readable)| && files == RecoverStates(old(files), readable)[cut]
      ensures status.Done? <==> cut == |RecoverStates(old(files), readable)| - 1
      ensures status.Done? ==> (restored <==>
        old(files).snapshot.Some?
          && ((readable && Recognised(old(files).config)) || (old(files).config.None? && !old(files).marker)))
    {
      hide Recognised;
      cut, restored := 0, false;
      if files.snapshot.None? {
        if files.marker {
          status := Remove(MarkerFile);
          if !status.Done? { return; }
          cut := 1;
        }
        return Done, false, cut;
      }
      if readable && Recognised(files.config) {
        status, cut := RestoreOriginal();
        return status, true, cut;
      }
      if files.config.None? && !files.marker {
        status, cut := RestoreOriginal();
        return status, true, cut;
      }
      status := Remove(SnapshotFile);
      if !status.Done? { return; }
      cut := 1;
      if files.marker {
        status := Remove(MarkerFile);
        if !status.Done? { return; }
        cut := 2;
      }
    }
  }
}
