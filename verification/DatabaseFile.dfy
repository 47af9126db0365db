/** Writing the database file: every step may fail, and a reader may look between any two steps. */
module DatabaseFile {
  import opened Wrappers

  /** What a file holds: the whole of one saved value, or part of one. */
  datatype Content<T> = Whole(value: T) | Part

  type Directory<T> = map<string, Content<T>>

  datatype Step = Marshal | CreateTemp | Chmod | WriteData | SyncFile | CloseFile | Rename | OpenDir | SyncDir | CloseDir

  /** What the file system does during one write: the step that fails, if any, and whether removing the temporary
      file then fails too. */
  datatype Io = Io(fault: Option<Step>, removeFails: bool, tempName: string)

  predicate AfterRename(s: Step) { s.OpenDir? || s.SyncDir? || s.CloseDir? }

  function File<T>(dir: Directory<T>, name: string): Option<Content<T>> {
    if name in dir then Some(dir[name]) else None
  }

  /** At each point of `trace` the file is all old up to some point and all new from there on. */
  ghost predicate SwitchesOnce<T(!new)>(trace: seq<Directory<T>>, name: string, old': Option<Content<T>>, new': T, k: nat) {
    && (forall i :: 0 <= i < |trace| && i < k ==> File(trace[i], name) == old')
    && (forall i :: 0 <= i < |trace| && k <= i ==> File(trace[i], name) == Some(Whole(new')))
  }

  /** One thing done to the directory: the temporary file is created, written, put in place of the file, or removed. */
  ghost predicate FileStep<T(!new)>(before: Directory<T>, after: Directory<T>, name: string, temp: string, value: T) {
    || (temp !in before && after == before[temp := Part])
    || (temp in before && after == before[temp := Whole(value)])
    || (temp in before && after == (before - {temp})[name := before[temp]])
    || (temp in before && after == before - {temp})
  }

  /** Nothing happens to the directory between two points of `trace` but one such step. */
  ghost predicate StepByStep<T(!new)>(trace: seq<Directory<T>>, name: string, temp: string, value: T) {
    forall i {:trigger trace[i]} :: 0 < i < |trace| ==> FileStep(trace[i - 1], trace[i], name, temp, value)
  }

  /** What an operation does to the directory, `seen` being the states it goes through: nothing, or from `before` to
      `after` step by step, with the file at every moment as it was or as it ends up, whole if it changes at all. */
  ghost predicate Steady<T(!new)>(seen: seq<Directory<T>>, before: Directory<T>, after: Directory<T>, name: string, temp: string) {
    if seen == [] then after == before
    else
      && seen[0] == before && seen[|seen| - 1] == after
      && (exists value :: StepByStep(seen, name, temp, value))
      && (forall i :: 0 <= i < |seen| ==> File(seen[i], name) == File(before, name) || File(seen[i], name) == File(after, name))
      && (File(after, name) != File(before, name) ==> File(after, name).Some? && File(after, name).value.Whole?)
  }

  lemma StepByStepGrows<T(!new)>(trace: seq<Directory<T>>, after: Directory<T>, name: string, temp: string, value: T)
    requires StepByStep(trace, name, temp, value) && |trace| > 0 && FileStep(trace[|trace| - 1], after, name, temp, value)
    ensures StepByStep(trace + [after], name, temp, value)
  {
  }

  /** FileDatabaseModel.Write. `trace` is the directory before and then after every step that changes it.
      The file is replaced whole or not at all; it holds the new value exactly when the rename was reached, which an
      error reports only for the steps after it. No other file changes and, unless removing it fails, no temporary
      file is left. */
  method Write<T(!new)>(dir: Directory<T>, fileName: string, value: T, io: Io)
    returns (dir': Directory<T>, ok: bool, trace: seq<Directory<T>>, ghost switch: nat)
    requires io.tempName != fileName && io.tempName !in dir
    ensures ok <==> io.fault.None?
    ensures |trace| > 0 && trace[0] == dir && trace[|trace| - 1] == dir'
    ensures StepByStep(trace, fileName, io.tempName, value)
    ensures SwitchesOnce(trace, fileName, File(dir, fileName), value, switch)
    ensures switch < |trace| <==> io.fault.None? || AfterRename(io.fault.value)
    ensures io.fault.Some? && io.fault.value in {Marshal, CreateTemp, Chmod, WriteData, SyncFile, CloseFile, Rename} ==>
              File(dir', fileName) == File(dir, fileName)
    ensures io.fault.Some? && io.fault.value in {OpenDir, SyncDir, CloseDir} ==> File(dir', fileName) == Some(Whole(value))
    ensures forall i, f :: 0 <= i < |trace| && f != fileName && f != io.tempName ==> File(trace[i], f) == File(dir, f)
    ensures io.tempName in dir' ==> io.fault.Some? && io.removeFails && !AfterRename(io.fault.value)
  {
    dir', ok, trace := dir, false, [dir];
    switch := |trace|;
    if io.fault.Some? && io.fault.value.Marshal? {
      return;
    }
    if io.fault.Some? && io.fault.value.CreateTemp? {
      return;
    }
    dir' := dir'[io.tempName := Part];
    StepByStepGrows(trace, dir', fileName, io.tempName, value);
    trace := trace + [dir'];
    switch := |trace|;
    if io.fault.Some? && (io.fault.value.Chmod? || io.fault.value.WriteData?) {
      // A failed write may have left part of the data. The deferred removal ignores its own failure.
      if !io.removeFails {
        dir' := dir' - {io.tempName};
        StepByStepGrows(trace, dir', fileName, io.tempName, value);
        trace := trace + [dir'];
        switch := |trace|;
      }
      return;
    }
    dir' := dir'[io.tempName := Whole(value)];
    StepByStepGrows(trace, dir', fileName, io.tempName, value);
    trace := trace + [dir'];
    switch := |trace|;
    if io.fault.Some? && (io.fault.value.SyncFile? || io.fault.value.CloseFile? || io.fault.value.Rename?) {
      if !io.removeFails {
        dir' := dir' - {io.tempName};
        StepByStepGrows(trace, dir', fileName, io.tempName, value);
        trace := trace + [dir'];
        switch := |trace|;
      }
      return;
    }
    dir' := (dir' - {io.tempName})[fileName := dir'[io.tempName]];
    StepByStepGrows(trace, dir', fileName, io.tempName, value);
    trace := trace + [dir'];
    if io.fault.Some? && (io.fault.value.OpenDir? || io.fault.value.SyncDir? || io.fault.value.CloseDir?) {
      return;
    }
    ok := true;
  }
}
