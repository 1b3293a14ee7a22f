/**
  Encrypting a database file in place: a sequence of file system calls, each of which may fail, and
  between any two of which the process may die. The file system is a map from paths to contents, and
  the contents of a database file are its tables: their order of pages, the journal mode and the
  permission bits do not matter here.
 */
module Encrypt {

  type Data = nat
  type Key = nat

  datatype Content = Plain(db: Data) | Cipher(key: Key, db: Data) | Other(bytes: seq<nat>)

  type Files = map<string, Content>

  /** What SQLite makes of a file that it has just created. */
  const EMPTY_DB: Data := 0

  const IN_MEMORY := ":memory:"

  function Enc(path: string): string {
    path + ".enc"
  }

  function Bak(path: string): string {
    path + ".bak"
  }

  lemma SidecarsDiffer(path: string)
    ensures path != Enc(path) && path != Bak(path) && Enc(path) != Bak(path)
  {
    assert Enc(path)[|path| + 1] == 'e' && Bak(path)[|path| + 1] == 'b';
  }

  datatype Error =
    | InMemory | StatBackup | BackupExists | RemoveStale | OpenPlaintext | Export
    | RestrictEncrypted | RestrictOriginal | RenameOriginal | Install | InstallAndRestore

  datatype Outcome = Encrypted | Failed(error: Error)

  /** The call that the run is about to make. The export needs a fresh file, so a stale one must be gone by then. */
  datatype Pc =
    | AtStat | AtRemove | AtOpen | AtAttach | AtExport | AtRestrictEncrypted | AtRestrictOriginal
    | AtRename | AtInstall | AtRestore | Finished(outcome: Outcome)

  datatype State = State(files: Files, pc: Pc)

  /**
    What the system does with one call: whether it fails, whether a failing open still creates the
    file, and what an unfinished export has left in the `.enc` file.
   */
  datatype Choice = Choice(fails: bool, creates: bool, leaves: Content)

  const NO_FAULT := Choice(false, true, Other([]))

  predicate IsPlain(files: Files, p: string) {
    p in files && files[p].Plain?
  }

  function Rename(files: Files, from: string, to: string): Files
    requires from in files
  {
    (files - {from})[to := files[from]]
  }

  function Step(path: string, key: Key, s: State, c: Choice): State {
    var files := s.files;
    match s.pc
    case AtStat =>
      if path == IN_MEMORY then s.(pc := Finished(Failed(InMemory)))
      else if c.fails then s.(pc := Finished(Failed(StatBackup)))
      else if Bak(path) in files then s.(pc := Finished(Failed(BackupExists)))
      else s.(pc := AtRemove)
    case AtRemove =>
      if c.fails then s.(pc := Finished(Failed(RemoveStale)))
      else State(files - {Enc(path)}, AtOpen)
    case AtOpen =>
      var touched := if path in files || (c.fails && !c.creates) then files else files[path := Plain(EMPTY_DB)];
      if c.fails || !IsPlain(touched, path) then State(touched, Finished(Failed(OpenPlaintext)))
      else State(touched, AtAttach)
    case AtAttach =>
      if c.fails || Enc(path) in files then s.(pc := Finished(Failed(Export)))
      else State(files[Enc(path) := c.leaves], AtExport)
    case AtExport =>
      if c.fails || !IsPlain(files, path) then State(files[Enc(path) := c.leaves], Finished(Failed(Export)))
      else State(files[Enc(path) := Cipher(key, files[path].db)], AtRestrictEncrypted)
    case AtRestrictEncrypted =>
      s.(pc := if c.fails then Finished(Failed(RestrictEncrypted)) else AtRestrictOriginal)
    case AtRestrictOriginal =>
      s.(pc := if c.fails then Finished(Failed(RestrictOriginal)) else AtRename)
    case AtRename =>
      if c.fails || path !in files then s.(pc := Finished(Failed(RenameOriginal)))
      else State(Rename(files, path, Bak(path)), AtInstall)
    case AtInstall =>
      if c.fails || Enc(path) !in files then s.(pc := AtRestore)
      else State(Rename(files, Enc(path), path), Finished(Encrypted))
    case AtRestore =>
      if c.fails || Bak(path) !in files then s.(pc := Finished(Failed(InstallAndRestore)))
      else State(Rename(files, Bak(path), path), Finished(Failed(Install)))
    case Finished(_) => s
  }

  function StepsLeft(pc: Pc): nat {
    match pc
    case AtStat => 10
    case AtRemove => 9
    case AtOpen => 8
    case AtAttach => 7
    case AtExport => 6
    case AtRestrictEncrypted => 5
    case AtRestrictOriginal => 4
    case AtRename => 3
    case AtInstall => 2
    case AtRestore => 1
    case Finished(_) => 0
  }

  /** One run to its end; `choices` says how each call goes. */
  function RunToEnd(path: string, key: Key, s: State, choices: Pc -> Choice): (end: State)
    ensures end.pc.Finished?
    ensures s.pc.Finished? ==> end == s
    decreases StepsLeft(s.pc)
  {
    if s.pc.Finished? then s else RunToEnd(path, key, Step(path, key, s, choices(s.pc)), choices)
  }

  /** The disk, with the calls that `encrypt_existing` makes. */
  class Disk {
    var files: Files

    constructor (files: Files)
      ensures this.files == files
    {
      this.files := files;
    }

    method RemoveFile(p: string, fails: bool) returns (ok: bool)
      modifies this
      ensures ok == !fails
      ensures files == if ok then old(files) - {p} else old(files)
    {
      if fails {
        return false;
      }
      files := files - {p};
      return true;
    }

    method Open(p: string, c: Choice) returns (ok: bool)
      modifies this
      ensures files == if p in old(files) || (c.fails && !c.creates) then old(files)
                       else old(files)[p := Plain(EMPTY_DB)]
      ensures ok == (!c.fails && IsPlain(files, p))
    {
      if p !in files && !(c.fails && !c.creates) {
        files := files[p := Plain(EMPTY_DB)];
      }
      return !c.fails && IsPlain(files, p);
    }

    method Write(p: string, content: Content)
      modifies this
      ensures files == old(files)[p := content]
    {
      files := files[p := content];
    }

    method RenameFile(from: string, to: string, fails: bool) returns (ok: bool)
      modifies this
      ensures ok == (!fails && from in old(files))
      ensures files == if ok then Rename(old(files), from, to) else old(files)
    {
      if fails || from !in files {
        return false;
      }
      files := (files - {from})[to := files[from]];
      return true;
    }

    method EncryptExisting(path: string, key: Key, choices: Pc -> Choice) returns (outcome: Outcome)
      modifies this
      ensures State(files, Finished(outcome)) == RunToEnd(path, key, State(old(files), AtStat), choices)
    {
      ghost var s := State(files, AtStat);
      ghost var end := RunToEnd(path, key, s, choices);
      if path == IN_MEMORY {
        return Failed(InMemory);
      }
      if choices(AtStat).fails {
        return Failed(StatBackup);
      }
      if Bak(path) in files {
        return Failed(BackupExists);
      }
      s := Step(path, key, s, choices(s.pc));
      assert end == RunToEnd(path, key, s, choices);
      var ok := RemoveFile(Enc(path), choices(AtRemove).fails);
      if !ok {
        return Failed(RemoveStale);
      }
      s := Step(path, key, s, choices(s.pc));
      assert end == RunToEnd(path, key, s, choices);
      assert s == State(files, AtOpen);
      ok := Open(path, choices(AtOpen));
      s := Step(path, key, s, choices(s.pc));
      assert end == RunToEnd(path, key, s, choices);
      if !ok {
        assert s == State(files, Finished(Failed(OpenPlaintext)));
        return Failed(OpenPlaintext);
      }
      assert s == State(files, AtAttach);
      if choices(AtAttach).fails || Enc(path) in files {
        return Failed(Export);
      }
      Write(Enc(path), choices(AtAttach).leaves);
      s := Step(path, key, s, choices(s.pc));
      assert end == RunToEnd(path, key, s, choices);
      if choices(AtExport).fails || !IsPlain(files, path) {
        Write(Enc(path), choices(AtExport).leaves);
        s := Step(path, key, s, choices(s.pc));
        assert end == RunToEnd(path, key, s, choices);
        assert s == State(files, Finished(Failed(Export)));
        return Failed(Export);
      }
      Write(Enc(path), Cipher(key, files[path].db));
      s := Step(path, key, s, choices(s.pc));
      assert end == RunToEnd(path, key, s, choices);
      assert s == State(files, AtRestrictEncrypted);
      outcome := InstallEncrypted(path, key, choices);
    }

    /** The part of `EncryptExisting` after the export. */
    method InstallEncrypted(path: string, key: Key, choices: Pc -> Choice) returns (outcome: Outcome)
      modifies this
      ensures State(files, Finished(outcome)) ==
              RunToEnd(path, key, State(old(files), AtRestrictEncrypted), choices)
    {
      ghost var s := State(files, AtRestrictEncrypted);
      ghost var end := RunToEnd(path, key, s, choices);
      if choices(AtRestrictEncrypted).fails {
        return Failed(RestrictEncrypted);
      }
      s := Step(path, key, s, choices(s.pc));
      assert end == RunToEnd(path, key, s, choices);
      if choices(AtRestrictOriginal).fails {
        return Failed(RestrictOriginal);
      }
      s := Step(path, key, s, choices(s.pc));
      assert end == RunToEnd(path, key, s, choices);
      var ok := RenameFile(path, Bak(path), choices(AtRename).fails);
      if !ok {
        return Failed(RenameOriginal);
      }
      s := Step(path, key, s, choices(s.pc));
      assert end == RunToEnd(path, key, s, choices);
      ok := RenameFile(Enc(path), path, choices(AtInstall).fails);
      if !ok {
        s := Step(path, key, s, choices(s.pc));
        assert end == RunToEnd(path, key, s, choices);
        ok := RenameFile(Bak(path), path, choices(AtRestore).fails);
        s := Step(path, key, s, choices(s.pc));
        assert end == RunToEnd(path, key, s, choices);
        assert s == State(files, Finished(Failed(if ok then Install else InstallAndRestore)));
        return Failed(if ok then Install else InstallAndRestore);
      }
      s := Step(path, key, s, choices(s.pc));
      assert end == RunToEnd(path, key, s, choices);
      assert s == State(files, Finished(Encrypted));
      return Encrypted;
    }
  }

  // ----- What a run reports and leaves, for every way its calls can go

  /** The refusals before the first change, and then the first call that fails. */
  ghost function Report(path: string, files: Files, choices: Pc -> Choice): Outcome {
    if path == ":memory:" then Failed(InMemory)
    else if choices(AtStat).fails then Failed(StatBackup)
    else if path + ".bak" in files then Failed(BackupExists)
    else if choices(AtRemove).fails then Failed(RemoveStale)
    else if choices(AtOpen).fails || (path in files && !files[path].Plain?) then Failed(OpenPlaintext)
    else if choices(AtAttach).fails || choices(AtExport).fails then Failed(Export)
    else if choices(AtRestrictEncrypted).fails then Failed(RestrictEncrypted)
    else if choices(AtRestrictOriginal).fails then Failed(RestrictOriginal)
    else if choices(AtRename).fails then Failed(RenameOriginal)
    else if !choices(AtInstall).fails then Encrypted
    else if choices(AtRestore).fails then Failed(InstallAndRestore)
    else Failed(Install)
  }

  /** The disk behind the export: the original where it was, and its ciphertext beside it. */
  function Exported(path: string, key: Key, files: Files, db: Data): Files {
    files[path := Plain(db)][path + ".enc" := Cipher(key, db)]
  }

  lemma StatRefuses(path: string, key: Key, files: Files, choices: Pc -> Choice)
    requires path == ":memory:" || choices(AtStat).fails || path + ".bak" in files || choices(AtRemove).fails
    ensures RunToEnd(path, key, State(files, AtStat), choices) ==
            State(files, Finished(Report(path, files, choices)))
  {
    var s1 := Step(path, key, State(files, AtStat), choices(AtStat));
    assert RunToEnd(path, key, State(files, AtStat), choices) == RunToEnd(path, key, s1, choices);
    if s1.pc == AtRemove {
      assert RunToEnd(path, key, s1, choices) ==
             RunToEnd(path, key, Step(path, key, s1, choices(AtRemove)), choices);
    }
  }

  lemma ReachOpen(path: string, key: Key, files: Files, choices: Pc -> Choice)
    requires path != ":memory:" && !choices(AtStat).fails && path + ".bak" !in files && !choices(AtRemove).fails
    ensures RunToEnd(path, key, State(files, AtStat), choices) ==
            RunToEnd(path, key, State(files - {path + ".enc"}, AtOpen), choices)
  {
    var s1 := Step(path, key, State(files, AtStat), choices(AtStat));
    assert s1 == State(files, AtRemove);
    assert Step(path, key, s1, choices(AtRemove)) == State(files - {path + ".enc"}, AtOpen);
    assert RunToEnd(path, key, s1, choices) ==
           RunToEnd(path, key, State(files - {path + ".enc"}, AtOpen), choices);
  }

  lemma OpenRefuses(path: string, key: Key, files: Files, choices: Pc -> Choice)
    requires choices(AtOpen).fails || (path in files && !files[path].Plain?)
    ensures RunToEnd(path, key, State(files, AtOpen), choices).pc == Finished(Failed(OpenPlaintext))
  {
    var s := Step(path, key, State(files, AtOpen), choices(AtOpen));
    assert s.pc == Finished(Failed(OpenPlaintext));
    assert RunToEnd(path, key, State(files, AtOpen), choices) == RunToEnd(path, key, s, choices);
  }

  lemma RunOpen(path: string, key: Key, files: Files, db: Data, choices: Pc -> Choice)
    requires path + ".enc" !in files && !choices(AtOpen).fails
    requires if path in files then files[path] == Plain(db) else db == EMPTY_DB
    ensures RunToEnd(path, key, State(files, AtOpen), choices) ==
            RunToEnd(path, key, State(files[path := Plain(db)], AtAttach), choices)
  {
    assert path in files ==> files[path := Plain(db)] == files;
    assert Step(path, key, State(files, AtOpen), choices(AtOpen)) == State(files[path := Plain(db)], AtAttach);
  }

  lemma RunExport(path: string, key: Key, files: Files, db: Data, choices: Pc -> Choice)
    requires path + ".enc" !in files && path in files && files[path] == Plain(db)
    ensures if choices(AtAttach).fails || choices(AtExport).fails
            then RunToEnd(path, key, State(files, AtAttach), choices).pc == Finished(Failed(Export))
            else RunToEnd(path, key, State(files, AtAttach), choices) ==
                 RunToEnd(path, key, State(Exported(path, key, files, db), AtRestrictEncrypted), choices)
  {
    SidecarsDiffer(path);
    var s1 := Step(path, key, State(files, AtAttach), choices(AtAttach));
    assert RunToEnd(path, key, State(files, AtAttach), choices) == RunToEnd(path, key, s1, choices);
    if !choices(AtAttach).fails {
      assert s1 == State(files[path + ".enc" := choices(AtAttach).leaves], AtExport);
      var s2 := Step(path, key, s1, choices(AtExport));
      assert RunToEnd(path, key, s1, choices) == RunToEnd(path, key, s2, choices);
      if !choices(AtExport).fails {
        assert s2.files == Exported(path, key, files, db);
      }
    }
  }

  ghost predicate ReachesRename(choices: Pc -> Choice) {
    !choices(AtRestrictEncrypted).fails && !choices(AtRestrictOriginal).fails && !choices(AtRename).fails
  }

  lemma RunToRename(path: string, key: Key, files: Files, choices: Pc -> Choice)
    requires path in files
    ensures var end := RunToEnd(path, key, State(files, AtRestrictEncrypted), choices);
            if ReachesRename(choices)
            then end == RunToEnd(path, key, State(Rename(files, path, path + ".bak"), AtInstall), choices)
            else end == State(files, Finished(Failed(
                   if choices(AtRestrictEncrypted).fails then RestrictEncrypted
                   else if choices(AtRestrictOriginal).fails then RestrictOriginal
                   else RenameOriginal)))
  {
    var s1 := Step(path, key, State(files, AtRestrictEncrypted), choices(AtRestrictEncrypted));
    assert RunToEnd(path, key, State(files, AtRestrictEncrypted), choices) == RunToEnd(path, key, s1, choices);
    if s1.pc == AtRestrictOriginal {
      var s2 := Step(path, key, s1, choices(AtRestrictOriginal));
      assert RunToEnd(path, key, s1, choices) == RunToEnd(path, key, s2, choices);
      if s2.pc == AtRename {
        var s3 := Step(path, key, s2, choices(AtRename));
        assert RunToEnd(path, key, s2, choices) == RunToEnd(path, key, s3, choices);
      }
    }
  }

  /** The last two calls: the install, and the rollback of one that failed. */
  lemma RunInstall(path: string, key: Key, files: Files, choices: Pc -> Choice)
    requires path !in files && path + ".enc" in files && path + ".bak" in files
    ensures RunToEnd(path, key, State(files, AtInstall), choices) ==
            if !choices(AtInstall).fails then State(Rename(files, path + ".enc", path), Finished(Encrypted))
            else if choices(AtRestore).fails then State(files, Finished(Failed(InstallAndRestore)))
            else State(Rename(files, path + ".bak", path), Finished(Failed(Install)))
  {
    var s1 := Step(path, key, State(files, AtInstall), choices(AtInstall));
    assert RunToEnd(path, key, State(files, AtInstall), choices) == RunToEnd(path, key, s1, choices);
    if s1.pc == AtRestore {
      var s2 := Step(path, key, s1, choices(AtRestore));
      assert RunToEnd(path, key, s1, choices) == RunToEnd(path, key, s2, choices);
    }
  }

  /** What stands on the disk when the run ends, once the export has gone well. */
  ghost function LeftBehind(path: string, key: Key, files: Files, db: Data, outcome: Outcome): Files {
    match outcome
    case Encrypted => (files - {path + ".enc"})[path := Cipher(key, db)][path + ".bak" := Plain(db)]
    case Failed(InstallAndRestore) => (files - {path})[path + ".bak" := Plain(db)][path + ".enc" := Cipher(key, db)]
    case Failed(_) => files[path := Plain(db)][path + ".enc" := Cipher(key, db)]
  }

  lemma RenamesLeave(path: string, key: Key, files: Files, db: Data)
    requires path + ".bak" !in files && path + ".enc" !in files && path in files && files[path] == Plain(db)
    ensures var aside := Rename(Exported(path, key, files, db), path, path + ".bak");
            && path !in aside && path + ".enc" in aside && path + ".bak" in aside
            && aside == LeftBehind(path, key, files, db, Failed(InstallAndRestore))
            && Rename(aside, path + ".bak", path) == LeftBehind(path, key, files, db, Failed(Install))
            && Rename(aside, path + ".enc", path) == LeftBehind(path, key, files, db, Encrypted)
  {
    SidecarsDiffer(path);
  }

  lemma RunFromExported(path: string, key: Key, files: Files, db: Data, choices: Pc -> Choice, outcome: Outcome)
    requires path + ".bak" !in files && path + ".enc" !in files && path in files && files[path] == Plain(db)
    requires outcome ==
             if choices(AtRestrictEncrypted).fails then Failed(RestrictEncrypted)
             else if choices(AtRestrictOriginal).fails then Failed(RestrictOriginal)
             else if choices(AtRename).fails then Failed(RenameOriginal)
             else if !choices(AtInstall).fails then Encrypted
             else if choices(AtRestore).fails then Failed(InstallAndRestore)
             else Failed(Install)
    ensures RunToEnd(path, key, State(Exported(path, key, files, db), AtRestrictEncrypted), choices) ==
            State(LeftBehind(path, key, files, db, outcome), Finished(outcome))
  {
    var exported := Exported(path, key, files, db);
    RunToRename(path, key, exported, choices);
    if ReachesRename(choices) {
      RenamesLeave(path, key, files, db);
      RunInstall(path, key, Rename(exported, path, path + ".bak"), choices);
    }
  }

  /** On every disk, and however the calls go, a run ends with this report. */
  lemma RunReports(path: string, key: Key, files: Files, choices: Pc -> Choice)
    ensures RunToEnd(path, key, State(files, AtStat), choices).pc == Finished(Report(path, files, choices))
  {
    if path == ":memory:" || choices(AtStat).fails || path + ".bak" in files || choices(AtRemove).fails {
      StatRefuses(path, key, files, choices);
    } else {
      var cleaned := files - {path + ".enc"};
      SidecarsDiffer(path);
      ReachOpen(path, key, files, choices);
      if choices(AtOpen).fails || (path in files && !files[path].Plain?) {
        OpenRefuses(path, key, cleaned, choices);
      } else {
        var db := if path in files then files[path].db else EMPTY_DB;
        RunOpen(path, key, cleaned, db, choices);
        RunExport(path, key, cleaned[path := Plain(db)], db, choices);
        if !choices(AtAttach).fails && !choices(AtExport).fails {
          RunFromExported(path, key, cleaned[path := Plain(db)], db, choices, Report(path, files, choices));
        }
      }
    }
  }

  ghost predicate PastTheExport(outcome: Outcome) {
    outcome == Encrypted || outcome.error.RestrictEncrypted? || outcome.error.RestrictOriginal? ||
    outcome.error.RenameOriginal? || outcome.error.Install? || outcome.error.InstallAndRestore?
  }

  lemma StaleFileDoesNotMatter(path: string, key: Key, files: Files, db: Data, outcome: Outcome)
    ensures LeftBehind(path, key, (files - {path + ".enc"})[path := Plain(db)], db, outcome) ==
            LeftBehind(path, key, files, db, outcome)
  {
    SidecarsDiffer(path);
  }

  lemma RunPastExport(path: string, key: Key, files: Files, db: Data, choices: Pc -> Choice)
    requires PastTheExport(Report(path, files, choices))
    requires db == if path in files then files[path].db else EMPTY_DB
    ensures RunToEnd(path, key, State(files, AtStat), choices).files ==
            LeftBehind(path, key, (files - {path + ".enc"})[path := Plain(db)], db, Report(path, files, choices))
  {
    var cleaned := files - {path + ".enc"};
    SidecarsDiffer(path);
    ReachOpen(path, key, files, choices);
    RunOpen(path, key, cleaned, db, choices);
    RunExport(path, key, cleaned[path := Plain(db)], db, choices);
    RunFromExported(path, key, cleaned[path := Plain(db)], db, choices, Report(path, files, choices));
  }

  /**
    What the whole disk is after a run that got past the export: with success the ciphertext at `path` and
    the original at `.bak`; after a failed rollback the original at `.bak` only; and after every other
    failure, a failed install included, the original at `path` and nothing at `.bak`.
   */
  lemma RunLeaves(path: string, key: Key, files: Files, choices: Pc -> Choice)
    requires PastTheExport(Report(path, files, choices))
    ensures RunToEnd(path, key, State(files, AtStat), choices).files ==
            LeftBehind(path, key, files, if path in files then files[path].db else EMPTY_DB,
                       Report(path, files, choices))
  {
    var db := if path in files then files[path].db else EMPTY_DB;
    RunPastExport(path, key, files, db, choices);
    StaleFileDoesNotMatter(path, key, files, db, Report(path, files, choices));
  }

  /** An install that fails is rolled back, and only a rollback that fails too leaves `path` empty. */
  lemma FailedInstallIsRolledBack(path: string, key: Key, files: Files, choices: Pc -> Choice)
    ensures var State(now, pc) := RunToEnd(path, key, State(files, AtStat), choices);
            && (pc == Finished(Encrypted) ==> forall call :: call != AtRestore ==> !FailsCall(choices, call))
            && (pc == Finished(Failed(InstallAndRestore)) ==> choices(AtInstall).fails && choices(AtRestore).fails)
            && (pc == Finished(Failed(Install)) ==>
                  && choices(AtInstall).fails && path in now && path + ".bak" !in now
                  && now[path] == if path in files then files[path] else Plain(EMPTY_DB))
  {
    RunReports(path, key, files, choices);
    SidecarsDiffer(path);
    if Report(path, files, choices) == Failed(Install) {
      RunLeaves(path, key, files, choices);
    }
  }

  /** A call of the run fails. */
  ghost predicate FailsCall(choices: Pc -> Choice, call: Pc) {
    !call.Finished? && choices(call).fails
  }

  // ----- Sessions: runs that follow each other, cut short anywhere

  /** `Start` begins a new run, after the last one ended or died at any point of it. */
  datatype Event = Tick(choice: Choice) | Start(key: Key)

  /** The disk, the run in progress, and its key. */
  datatype Session = Session(state: State, key: Key)

  function Play(path: string, key: Key, files: Files, events: seq<Event>): Session {
    if events == [] then Session(State(files, AtStat), key)
    else
      var before := Play(path, key, files, events[..|events| - 1]);
      match events[|events| - 1]
      case Tick(c) => before.(state := Step(path, before.key, before.state, c))
      case Start(key) => Session(State(before.state.files, AtStat), key)
  }

  ghost predicate OriginalAt(files: Files, p: string, db: Data) {
    p in files && files[p] == Plain(db)
  }

  ghost predicate Untouched(path: string, files: Files, db: Data) {
    OriginalAt(files, path, db) && Bak(path) !in files
  }

  ghost predicate SetAside(path: string, files: Files, db: Data) {
    path !in files && OriginalAt(files, Bak(path), db)
  }

  ghost predicate Replaced(path: string, files: Files, db: Data) {
    OriginalAt(files, Bak(path), db) && path in files && files[path].Cipher? && files[path].db == db
  }

  /** What each point of a run knows about the three files. */
  ghost predicate Safe(path: string, session: Session, db: Data) {
    var Session(State(files, pc), key) := session;
    var exported := Enc(path) in files && files[Enc(path)] == Cipher(key, db);
    match pc
    case AtStat => Untouched(path, files, db) || SetAside(path, files, db) || Replaced(path, files, db)
    case AtRemove => Untouched(path, files, db)
    case AtOpen => Untouched(path, files, db)
    case AtAttach => Untouched(path, files, db)
    case AtExport => Untouched(path, files, db)
    case AtRestrictEncrypted => Untouched(path, files, db) && exported
    case AtRestrictOriginal => Untouched(path, files, db) && exported
    case AtRename => Untouched(path, files, db) && exported
    case AtInstall => SetAside(path, files, db) && exported
    case AtRestore => SetAside(path, files, db) && exported
    case Finished(Encrypted) =>
      Replaced(path, files, db) && files[path] == Cipher(key, db) && Enc(path) !in files
    case Finished(Failed(InstallAndRestore)) => SetAside(path, files, db) && exported
    case Finished(Failed(BackupExists)) => SetAside(path, files, db) || Replaced(path, files, db)
    case Finished(Failed(error)) =>
      if error.InMemory? || error.StatBackup?
      then Untouched(path, files, db) || SetAside(path, files, db) || Replaced(path, files, db)
      else Untouched(path, files, db)
  }

  lemma StepIsSafe(path: string, session: Session, db: Data, c: Choice)
    requires Safe(path, session, db)
    ensures Safe(path, session.(state := Step(path, session.key, session.state, c)), db)
  {
    SidecarsDiffer(path);
  }

  /** Every point of every session is safe, whatever failed and wherever runs died. */
  lemma {:induction false} SessionIsSafe(path: string, key: Key, files: Files, db: Data, events: seq<Event>)
    requires Untouched(path, files, db)
    ensures Safe(path, Play(path, key, files, events), db)
  {
    if events != [] {
      var init := events[..|events| - 1];
      SessionIsSafe(path, key, files, db, init);
      if events[|events| - 1].Tick? {
        StepIsSafe(path, Play(path, key, files, init), db, events[|events| - 1].choice);
      }
    }
  }

  /**
    The original is never lost: at every moment it is at `path` or at `.bak`, and a run that reports
    success has left the ciphertext at `path`, the original at `.bak` and nothing at `.enc`.
   */
  lemma OriginalSurvives(path: string, key: Key, files: Files, db: Data, events: seq<Event>)
    requires Untouched(path, files, db)
    ensures var Session(State(now, pc), current) := Play(path, key, files, events);
            && (OriginalAt(now, path, db) || OriginalAt(now, Bak(path), db))
            && (pc == Finished(Encrypted) ==>
                  && path in now && now[path] == Cipher(current, db)
                  && OriginalAt(now, Bak(path), db) && Enc(path) !in now)
  {
    SessionIsSafe(path, key, files, db, events);
  }

  /** Files other than the three are never touched. */
  lemma {:induction false} OtherFilesUntouched(path: string, key: Key, files: Files, events: seq<Event>, p: string)
    requires p != path && p != Enc(path) && p != Bak(path)
    ensures var now := Play(path, key, files, events).state.files;
            (p in now <==> p in files) && (p in files ==> now[p] == files[p])
  {
    if events != [] {
      OtherFilesUntouched(path, key, files, events[..|events| - 1], p);
    }
  }

  /** A file that already stands at `.bak` stops every run at its first call, before anything changes. */
  lemma {:induction false} BackupIsNeverOverwritten(path: string, key: Key, files: Files, events: seq<Event>)
    requires Bak(path) in files
    ensures var state := Play(path, key, files, events).state;
            state.files == files && (state.pc == AtStat || state.pc.Finished?)
    ensures Play(path, key, files, events).state.pc != Finished(Encrypted)
  {
    if events != [] {
      BackupIsNeverOverwritten(path, key, files, events[..|events| - 1]);
    }
  }

  // ----- Runs without failures

  const WITHOUT_FAULTS: Pc -> Choice := _ => NO_FAULT

  /** What the first calls of a failure-free run lead to. */
  function Prepared(path: string, files: Files): Files {
    var cleaned := files - {Enc(path)};
    (if path in cleaned then cleaned else cleaned[path := Plain(EMPTY_DB)])[Enc(path) := NO_FAULT.leaves]
  }

  lemma CleanPrefix(path: string, key: Key, files: Files)
    requires path != IN_MEMORY && Bak(path) !in files
    requires path in files ==> files[path].Plain?
    ensures RunToEnd(path, key, State(files, AtStat), WITHOUT_FAULTS) ==
            RunToEnd(path, key, State(Prepared(path, files), AtExport), WITHOUT_FAULTS)
  {
    SidecarsDiffer(path);
    var s1 := Step(path, key, State(files, AtStat), NO_FAULT);
    var s2 := Step(path, key, s1, NO_FAULT);
    var s3 := Step(path, key, s2, NO_FAULT);
    var s4 := Step(path, key, s3, NO_FAULT);
    assert s2 == State(files - {Enc(path)}, AtOpen);
    assert s4 == State(Prepared(path, files), AtExport);
    assert RunToEnd(path, key, s2, WITHOUT_FAULTS) == RunToEnd(path, key, s4, WITHOUT_FAULTS);
  }

  lemma CleanSuffix(path: string, key: Key, files: Files, db: Data)
    requires Untouched(path, files, db) && Enc(path) in files
    ensures RunToEnd(path, key, State(files, AtExport), WITHOUT_FAULTS) ==
            State((files - {Enc(path)})[path := Cipher(key, db)][Bak(path) := Plain(db)], Finished(Encrypted))
  {
    SidecarsDiffer(path);
    var exported := files[Enc(path) := Cipher(key, db)];
    var s1 := State(exported, AtRestrictEncrypted);
    assert Step(path, key, State(files, AtExport), NO_FAULT) == s1;
    var s3 := State(exported, AtRename);
    assert RunToEnd(path, key, s1, WITHOUT_FAULTS) == RunToEnd(path, key, s3, WITHOUT_FAULTS);
    var s4 := State(Rename(exported, path, Bak(path)), AtInstall);
    assert Step(path, key, s3, NO_FAULT) == s4;
    var s5 := State(Rename(s4.files, Enc(path), path), Finished(Encrypted));
    assert Step(path, key, s4, NO_FAULT) == s5;
    assert RunToEnd(path, key, s3, WITHOUT_FAULTS) == RunToEnd(path, key, s5, WITHOUT_FAULTS);
    assert s5.files == (files - {Enc(path)})[path := Cipher(key, db)][Bak(path) := Plain(db)];
  }

  predicate Encryptable(path: string, files: Files) {
    path != IN_MEMORY && Bak(path) !in files && (path in files ==> files[path].Plain?)
  }

  /** The database a run starts from: a missing file counts as an empty one. */
  function Database(path: string, files: Files): Data
    requires Encryptable(path, files)
  {
    if path in files then files[path].db else EMPTY_DB
  }

  lemma CleanRunOfEncryptable(path: string, key: Key, files: Files)
    requires Encryptable(path, files)
    ensures var db := Database(path, files);
            RunToEnd(path, key, State(files, AtStat), WITHOUT_FAULTS) ==
            State((files - {Enc(path)})[path := Cipher(key, db)][Bak(path) := Plain(db)], Finished(Encrypted))
  {
    SidecarsDiffer(path);
    var prepared, db := Prepared(path, files), Database(path, files);
    CleanPrefix(path, key, files);
    CleanSuffix(path, key, prepared, db);
    assert (prepared - {Enc(path)})[path := Cipher(key, db)] == (files - {Enc(path)})[path := Cipher(key, db)];
  }

  /** On any disk: exactly when a failure-free run succeeds, and the whole disk afterwards. */
  lemma CleanRunSucceedsIff(path: string, key: Key, files: Files)
    ensures var end := RunToEnd(path, key, State(files, AtStat), WITHOUT_FAULTS);
            && (end.pc == Finished(Encrypted) <==> Encryptable(path, files))
            && (Encryptable(path, files) ==>
                  var db := Database(path, files);
                  end.files == (files - {Enc(path)})[path := Cipher(key, db)][Bak(path) := Plain(db)])
  {
    SidecarsDiffer(path);
    if Encryptable(path, files) {
      CleanRunOfEncryptable(path, key, files);
    } else if path != IN_MEMORY && Bak(path) !in files {
      var s1 := Step(path, key, State(files, AtStat), NO_FAULT);
      var s2 := Step(path, key, s1, NO_FAULT);
      assert s2 == State(files - {Enc(path)}, AtOpen);
      var s3 := Step(path, key, s2, NO_FAULT);
      assert s3.pc == Finished(Failed(OpenPlaintext));
      assert RunToEnd(path, key, State(files, AtStat), WITHOUT_FAULTS) ==
             RunToEnd(path, key, s2, WITHOUT_FAULTS) == RunToEnd(path, key, s3, WITHOUT_FAULTS);
    }
  }

  /** After any session, a failure-free run succeeds exactly when no run has moved the original aside for good. */
  lemma RerunSucceedsIff(path: string, key: Key, files: Files, db: Data, events: seq<Event>)
    requires Untouched(path, files, db) && path != IN_MEMORY
    ensures var now := Play(path, key, files, events).state.files;
            RunToEnd(path, key, State(now, AtStat), WITHOUT_FAULTS).pc == Finished(Encrypted) <==>
            Bak(path) !in now
  {
    SessionIsSafe(path, key, files, db, events);
    CleanRunSucceedsIff(path, key, Play(path, key, files, events).state.files);
  }

  /** The only failures that stop a rerun are a failed rollback and what it, or a crash, left at `.bak`. */
  lemma FailureAllowsRerun(path: string, key: Key, files: Files, db: Data, events: seq<Event>)
    requires Untouched(path, files, db) && path != IN_MEMORY
    ensures var Session(State(now, pc), _) := Play(path, key, files, events);
            pc.Finished? && pc.outcome.Failed? && pc.outcome.error != InstallAndRestore &&
            pc.outcome.error != BackupExists && pc.outcome.error != StatBackup && pc.outcome.error != InMemory ==>
            && OriginalAt(now, path, db)
            && RunToEnd(path, key, State(now, AtStat), WITHOUT_FAULTS).pc == Finished(Encrypted)
  {
    SessionIsSafe(path, key, files, db, events);
    CleanRunSucceedsIff(path, key, Play(path, key, files, events).state.files);
  }

  lemma PlayOneMore(path: string, key: Key, files: Files, events: seq<Event>, c: Choice)
    ensures var before := Play(path, key, files, events);
            Play(path, key, files, events + [Tick(c)]) == before.(state := Step(path, before.key, before.state, c))
  {
    assert (events + [Tick(c)])[..|events|] == events;
  }

  /** Without faults a run reaches its last call, and then only the crash can stop it. */
  lemma ReachInstall(path: string, key: Key, files: Files, db: Data, events: seq<Event>) returns (more: seq<Event>)
    requires path != IN_MEMORY && Untouched(path, files, db)
    requires var session := Play(path, key, files, events);
             session.key == key && Safe(path, session, db) && StepsLeft(session.state.pc) >= 2 &&
             Untouched(path, session.state.files, db)
    ensures Play(path, key, files, more).state.pc == AtInstall
    decreases StepsLeft(Play(path, key, files, events).state.pc)
  {
    SidecarsDiffer(path);
    var session := Play(path, key, files, events);
    more := events + [Tick(NO_FAULT)];
    PlayOneMore(path, key, files, events, NO_FAULT);
    StepIsSafe(path, session, db, NO_FAULT);
    if session.state.pc != AtRename {
      more := ReachInstall(path, key, files, db, more);
    }
  }

  /** A crash between the two renames strands the database: the original is safe at `.bak`, but reruns refuse. */
  lemma CrashBetweenRenamesStrands(path: string, key: Key, files: Files, db: Data) returns (events: seq<Event>)
    requires path != IN_MEMORY && Untouched(path, files, db)
    ensures var now := Play(path, key, files, events).state.files;
            && SetAside(path, now, db)
            && RunToEnd(path, key, State(now, AtStat), WITHOUT_FAULTS).pc == Finished(Failed(BackupExists))
  {
    events := ReachInstall(path, key, files, db, []);
    SessionIsSafe(path, key, files, db, events);
    var now := Play(path, key, files, events).state.files;
    assert Step(path, key, State(now, AtStat), NO_FAULT).pc == Finished(Failed(BackupExists));
  }
}
