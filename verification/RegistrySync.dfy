/**
 * The incremental sync of the application registry. The files of a diff are processed app by app,
 * apps side by side: rows of the old file out, download into a temporary tree, rows of the new file
 * in. Live files change only after the database transaction is committed.
 */
module RegistrySync {
  import opened Options
  import opened MetadataIndex

  datatype Status = Added | Modified | Changed | Removed

  type Diff = map<File, Status>

  datatype Phase = Pending | Cleared | Downloaded | Done

  /** A sync under way: the transaction's view of the index, the temporary tree, how far each file
      is, and the work put off until the commit. */
  datatype Sync = Sync(work: Index, temp: Tree, phase: map<File, Phase>, toDelete: seq<File>,
                       toMove: seq<File>)

  /** The diff says exactly what separates the two trees. */
  ghost predicate ExactDiff(diff: Diff, before: Tree, after: Tree) {
    && (forall f | f in diff :: (f in before <==> diff[f] != Added)
                             && (f in after <==> diff[f] != Removed))
    && (forall f | f !in diff :: f in before <==> f in after)
    && (forall f | f !in diff && f in before :: f in after && before[f] == after[f])
  }

  /** The token list of an app waits until its app.json is dealt with. */
  predicate Enabled(phase: map<File, Phase>, file: File) {
    && file in phase && phase[file] != Done
    && (file.kind == NativeTokens && AppFile(file.dir) in phase ==>
          phase[AppFile(file.dir)] == Done)
  }

  function NextPhase(phase: Phase, status: Status): Phase {
    match phase
    case Pending => Cleared
    case Cleared => if status == Removed then Done else Downloaded
    case Downloaded => Done
    case Done => Done
  }

  /** How far a schedule gets the files when nothing fails. A file whose turn it is not is passed
      over. */
  ghost function PhasesAfter(phase: map<File, Phase>, diff: Diff, schedule: seq<File>)
    : (r: map<File, Phase>)
    requires phase.Keys == diff.Keys
    ensures r.Keys == diff.Keys
    decreases |schedule|
  {
    if schedule == [] then phase
    else
      var k := |schedule| - 1;
      var before := PhasesAfter(phase, diff, schedule[..k]);
      if Enabled(before, schedule[k])
      then before[schedule[k] := NextPhase(before[schedule[k]], diff[schedule[k]])]
      else before
  }

  /** A sync never gets stuck: until all files are done, some file can move. */
  lemma SomeFileCanMove(phase: map<File, Phase>)
    ensures (exists f :: Enabled(phase, f)) <==> exists f :: f in phase && phase[f] != Done
  {
    if f :| f in phase && phase[f] != Done {
      assert Enabled(phase, f) || Enabled(phase, AppFile(f.dir));
    }
  }

  /** The index after the next step for a file. None: a file that has to be read is missing or
      malformed. */
  function NextWork(s: Sync, file: File, status: Status, live: Tree, defaults: set<string>)
    : Option<Index>
    requires file in s.phase
  {
    match s.phase[file]
    case Pending => if status == Added then Some(s.work) else DeleteFile(s.work, live, file)
    case Cleared => Some(s.work)
    case Downloaded => IndexFile(s.work, s.temp, live, file, defaults)
    case Done => Some(s.work)
  }

  /** The next step for a file, apart from the index. */
  function NextFiles(s: Sync, file: File, status: Status, remote: Tree): Sync
    requires file in s.phase && (file in remote <==> status != Removed)
  {
    var next := s.(phase := s.phase[file := NextPhase(s.phase[file], status)]);
    match s.phase[file]
    case Pending => next
    case Cleared =>
      if status == Removed then next.(toDelete := s.toDelete + [file])
      else next.(temp := s.temp[file := remote[file]])
    case Downloaded => next.(toMove := s.toMove + [file])
    case Done => next
  }

  function Advance(s: Sync, file: File, status: Status, remote: Tree, live: Tree,
                   defaults: set<string>): Option<Sync>
    requires file in s.phase && (file in remote <==> status != Removed)
  {
    match NextWork(s, file, status, live, defaults)
    case None => None
    case Some(work) => Some(NextFiles(s, file, status, remote).(work := work))
  }

  // ---- The invariant of a sync ----

  ghost predicate Setting(diff: Diff, before: Tree, after: Tree, defaults: set<string>) {
    && WellFormed(before) && WellFormed(after)
    && ExactDiff(diff, before, after) && DisjointKeys(before, after, defaults)
  }

  /** The rows in the index on account of a file: the old ones until it is cleared, the new ones
      once it is done. */
  ghost function Part(phase: map<File, Phase>, before: Tree, after: Tree, defaults: set<string>,
                      file: File): Index
    requires WellFormed(before) && WellFormed(after)
  {
    if file !in phase || phase[file] == Pending then Rows(before, file, defaults)
    else if phase[file] == Done then Rows(after, file, defaults)
    else map[]
  }

  ghost function Parts(phase: map<File, Phase>, before: Tree, after: Tree, defaults: set<string>)
    : File -> Index
    requires WellFormed(before) && WellFormed(after)
  {
    f => Part(phase, before, after, defaults, f)
  }

  /** The temporary tree and the two lists hold a file as its phase says. */
  ghost predicate FileFollows(s: Sync, diff: Diff, after: Tree, f: File)
    requires s.phase.Keys == diff.Keys
  {
    var kept := f in diff && diff[f] != Removed;
    && (f in s.temp <==> kept && (s.phase[f] == Downloaded || s.phase[f] == Done))
    && (f in s.temp ==> f in after && s.temp[f] == after[f])
    && (f in s.toDelete <==> f in diff && diff[f] == Removed && s.phase[f] == Done)
    && (f in s.toMove <==> kept && s.phase[f] == Done)
    && (f in diff && diff[f] == Removed ==> s.phase[f] != Downloaded)
  }

  ghost predicate FilesFollow(s: Sync, diff: Diff, after: Tree) {
    s.phase.Keys == diff.Keys && forall f :: FileFollows(s, diff, after, f)
  }

  ghost predicate Inv(s: Sync, diff: Diff, before: Tree, after: Tree, defaults: set<string>)
    requires WellFormed(before) && WellFormed(after)
  {
    FilesFollow(s, diff, after) && Exactly(s.work, Parts(s.phase, before, after, defaults))
  }

  /** When a token list is indexed, the app.json that is read is the new one. */
  lemma NewAppIsRead(s: Sync, diff: Diff, before: Tree, after: Tree, file: File)
    requires WellFormed(before) && WellFormed(after) && ExactDiff(diff, before, after)
    requires FilesFollow(s, diff, after) && Enabled(s.phase, file) && s.phase[file] == Downloaded
    ensures file in after && file in s.temp && s.temp[file] == after[file]
    ensures ReadApp(s.temp, before, file.dir) == Some(after[AppFile(file.dir)].meta)
  {
    var app := AppFile(file.dir);
    assert FileFollows(s, diff, after, file) && FileFollows(s, diff, after, app);
    assert file in s.temp && app in after;
    assert app in diff ==> app in s.temp;
    assert app !in diff ==> app !in s.temp && app in before && before[app] == after[app];
  }

  /** Moving one file from one phase to another, in the index. */
  lemma PhaseChange(work: Index, phase: map<File, Phase>, diff: Diff, before: Tree, after: Tree,
                    defaults: set<string>, file: File, keys: set<Key>, rows: Index, next: Phase)
    requires Setting(diff, before, after, defaults) && file in phase
    requires Exactly(work, Parts(phase, before, after, defaults))
    requires rows == Part(phase[file := next], before, after, defaults, file)
    requires keys == Part(phase, before, after, defaults, file).Keys
    requires forall k | k in keys ::
      k in Rows(before, file, defaults) || k in Rows(after, file, defaults)
    ensures Exactly((work - keys) + rows, Parts(phase[file := next], before, after, defaults))
  {
    hide Rows, Exactly;
    ReplacePart(work, Parts(phase, before, after, defaults), file, keys, rows,
                Parts(phase[file := next], before, after, defaults));
  }

  lemma NextFilesFollow(s: Sync, diff: Diff, before: Tree, after: Tree, file: File)
    requires ExactDiff(diff, before, after) && FilesFollow(s, diff, after) && Enabled(s.phase, file)
    ensures FilesFollow(NextFiles(s, file, diff[file], after), diff, after)
  {
    var next := NextFiles(s, file, diff[file], after);
    forall f ensures FileFollows(next, diff, after, f) {
      assert FileFollows(s, diff, after, f);
    }
  }

  lemma ClearingKeepsParts(s: Sync, diff: Diff, before: Tree, after: Tree, defaults: set<string>,
                           file: File)
    requires Setting(diff, before, after, defaults) && file in diff && file in s.phase
    requires Exactly(s.work, Parts(s.phase, before, after, defaults)) && s.phase[file] == Pending
    ensures NextWork(s, file, diff[file], before, defaults).Some?
    ensures Exactly(NextWork(s, file, diff[file], before, defaults).value,
                    Parts(s.phase[file := Cleared], before, after, defaults))
  {
    hide Rows, Exactly, DeleteFile, IndexFile, DisjointKeys, WellFormed;
    var none, rows: Index := map[], Rows(before, file, defaults);
    PhaseChange(s.work, s.phase, diff, before, after, defaults, file, rows.Keys, none, Cleared);
    assert (s.work - rows.Keys) + none == s.work - rows.Keys;
    if diff[file] == Added {
      NoRows(before, file, defaults);
      assert s.work - rows.Keys == s.work;
    } else {
      DeleteFileRemovesItsRows(s.work, before, file, defaults);
    }
  }

  lemma DownloadKeepsParts(s: Sync, diff: Diff, before: Tree, after: Tree, defaults: set<string>,
                           file: File)
    requires Setting(diff, before, after, defaults) && file in diff && file in s.phase
    requires Exactly(s.work, Parts(s.phase, before, after, defaults)) && s.phase[file] == Cleared
    ensures Exactly(s.work, Parts(s.phase[file := NextPhase(Cleared, diff[file])],
                                  before, after, defaults))
  {
    hide Rows, Exactly, DisjointKeys, WellFormed;
    var none: Index := map[];
    if diff[file] == Removed {
      NoRows(after, file, defaults);
    }
    assert (s.work - {}) + none == s.work;
    PhaseChange(s.work, s.phase, diff, before, after, defaults, file, {}, none,
                NextPhase(Cleared, diff[file]));
  }

  lemma IndexingKeepsParts(s: Sync, diff: Diff, before: Tree, after: Tree, defaults: set<string>,
                           file: File)
    requires Setting(diff, before, after, defaults) && FilesFollow(s, diff, after)
    requires Exactly(s.work, Parts(s.phase, before, after, defaults))
    requires Enabled(s.phase, file) && s.phase[file] == Downloaded
    ensures NextWork(s, file, diff[file], before, defaults).Some?
    ensures Exactly(NextWork(s, file, diff[file], before, defaults).value,
                    Parts(s.phase[file := Done], before, after, defaults))
  {
    hide Rows, Exactly, DeleteFile, IndexFile, DisjointKeys, WellFormed, ExactDiff, ReadApp;
    hide FileFollows;
    var rows := Rows(after, file, defaults);
    NewAppIsRead(s, diff, before, after, file);
    IndexFileAddsItsRows(s.work, s.temp, before, file, after, defaults);
    PhaseChange(s.work, s.phase, diff, before, after, defaults, file, {}, rows, Done);
    assert (s.work - {}) + rows == s.work + rows;
  }

  /** Every step finds the files it reads and keeps the invariant. */
  lemma StepKeepsInv(s: Sync, diff: Diff, before: Tree, after: Tree, defaults: set<string>,
                     file: File)
    requires Setting(diff, before, after, defaults)
    requires Inv(s, diff, before, after, defaults) && Enabled(s.phase, file)
    ensures Advance(s, file, diff[file], after, before, defaults).Some?
    ensures
      var next := Advance(s, file, diff[file], after, before, defaults).value;
      && Inv(next, diff, before, after, defaults)
      && next.phase == s.phase[file := NextPhase(s.phase[file], diff[file])]
  {
    hide Exactly, Rows, WellFormed, DisjointKeys, ExactDiff, DeleteFile, IndexFile, FileFollows;
    hide Parts;
    var status := diff[file];
    InDiff(diff, before, after, file);
    NextFilesFollow(s, diff, before, after, file);
    match s.phase[file] {
      case Pending => ClearingKeepsParts(s, diff, before, after, defaults, file);
      case Cleared => DownloadKeepsParts(s, diff, before, after, defaults, file);
      case Downloaded => IndexingKeepsParts(s, diff, before, after, defaults, file);
    }
    var next := Advance(s, file, status, after, before, defaults).value;
    assert next.phase == s.phase[file := NextPhase(s.phase[file], status)];
    WorkIsApart(NextFiles(s, file, status, after), next, diff, after);
  }

  lemma InDiff(diff: Diff, before: Tree, after: Tree, file: File)
    requires ExactDiff(diff, before, after) && file in diff
    ensures file in after <==> diff[file] != Removed
  {
  }

  lemma WorkIsApart(s: Sync, t: Sync, diff: Diff, after: Tree)
    requires FilesFollow(s, diff, after) && t == s.(work := t.work)
    ensures FilesFollow(t, diff, after)
  {
    forall f ensures FileFollows(t, diff, after, f) {
      assert FileFollows(s, diff, after, f);
    }
  }

  lemma NoRows(tree: Tree, file: File, defaults: set<string>)
    requires WellFormed(tree) && file !in tree
    ensures Rows(tree, file, defaults) == map[]
  {
  }

  // ---- The end of a sync ----

  /** Rows carry the chain name, so a chain may change its name only along with its tokens. */
  ghost predicate NamesKept(diff: Diff, before: Tree, after: Tree)
    requires WellFormed(before) && WellFormed(after)
  {
    forall f | f in before && f in after && f !in diff && f.kind == NativeTokens
            && before[f].tokens != [] ::
      before[AppFile(f.dir)].meta.chainName == after[AppFile(f.dir)].meta.chainName
  }

  lemma KeptFileHasSameRows(diff: Diff, before: Tree, after: Tree, defaults: set<string>,
                            file: File)
    requires WellFormed(before) && WellFormed(after) && ExactDiff(diff, before, after)
    requires NamesKept(diff, before, after) && file !in diff
    ensures Rows(before, file, defaults) == Rows(after, file, defaults)
  {
  }

  /** The incremental index is the index of the new tree if and only if no app with an untouched,
      non-empty token list changed its chain name. */
  lemma SyncRefinesRebuildIff(s: Sync, diff: Diff, before: Tree, after: Tree,
                              defaults: set<string>)
    requires Setting(diff, before, after, defaults) && Inv(s, diff, before, after, defaults)
    requires forall f | f in diff :: s.phase[f] == Done
    ensures Describes(s.work, after, defaults) <==> NamesKept(diff, before, after)
  {
    hide WellFormed, Rows, ExactDiff, NamesKept, DisjointKeys, Exactly, FileFollows;
    var parts, parts' := Parts(s.phase, before, after, defaults),
                         (f: File) => Rows(after, f, defaults);
    assert forall f | f !in diff :: parts(f) == Rows(before, f, defaults);
    if NamesKept(diff, before, after) {
      PartsOfNewTree(diff, before, after, defaults, parts);
      SameParts(s.work, parts, parts');
    }
    if Describes(s.work, after, defaults) {
      UntouchedNames(s.work, diff, before, after, defaults, parts, parts');
    }
  }

  lemma PartsOfNewTree(diff: Diff, before: Tree, after: Tree, defaults: set<string>,
                       parts: File -> Index)
    requires WellFormed(before) && WellFormed(after) && ExactDiff(diff, before, after)
    requires NamesKept(diff, before, after)
    requires forall f | f in diff :: parts(f) == Rows(after, f, defaults)
    requires forall f | f !in diff :: parts(f) == Rows(before, f, defaults)
    ensures forall f :: parts(f) == Rows(after, f, defaults)
  {
    hide Rows, ExactDiff, NamesKept;
    forall f ensures parts(f) == Rows(after, f, defaults) {
      if f !in diff { KeptFileHasSameRows(diff, before, after, defaults, f); }
    }
  }

  lemma UntouchedNames(work: Index, diff: Diff, before: Tree, after: Tree, defaults: set<string>,
                       parts: File -> Index, parts': File -> Index)
    requires WellFormed(before) && WellFormed(after) && ExactDiff(diff, before, after)
    requires Exactly(work, parts) && Exactly(work, parts')
    requires forall f | f !in diff :: parts(f) == Rows(before, f, defaults)
    requires forall f :: parts'(f) == Rows(after, f, defaults)
    ensures NamesKept(diff, before, after)
  {
    hide Rows, Exactly;
    forall f | f in before && f in after && f !in diff && f.kind == NativeTokens
            && before[f].tokens != []
      ensures before[AppFile(f.dir)].meta.chainName == after[AppFile(f.dir)].meta.chainName
    {
      BothNames(work, before, after, defaults, f, parts, parts');
    }
  }

  /** One app before and after its chain is renamed; the token list stays as it is. */
  ghost predicate Renamed(dir: Dir, token: Token, before: Tree, after: Tree, diff: Diff) {
    && before.Keys == after.Keys == {AppFile(dir), File(dir, NativeTokens)}
    && before[AppFile(dir)].App? && before[AppFile(dir)].meta.chainName == "alpha"
    && after[AppFile(dir)] == App(before[AppFile(dir)].meta.(chainName := "beta"))
    && before[File(dir, NativeTokens)] == after[File(dir, NativeTokens)] == Tokens([token])
    && diff == map[AppFile(dir) := Modified]
  }

  lemma RenamedIsASetting(dir: Dir, token: Token, before: Tree, after: Tree, diff: Diff)
    requires Renamed(dir, token, before, after, diff)
    ensures Setting(diff, before, after, {}) && !NamesKept(diff, before, after)
  {
    hide Rows, DisjointKeys;
    assert File(dir, NativeTokens) in before && before[File(dir, NativeTokens)].tokens != [];
    OneAppIsDisjoint(dir, before, after);
  }

  /** The row of the untouched token, for as long as a sync keeps the invariant. */
  lemma UntouchedTokenRow(s: Sync, dir: Dir, token: Token, before: Tree, after: Tree, diff: Diff)
    requires Renamed(dir, token, before, after, diff)
    requires WellFormed(before) && WellFormed(after) && Inv(s, diff, before, after, {})
    ensures KeyOfToken(token) in s.work
    ensures s.work[KeyOfToken(token)] == TokenRow("alpha", dir.network, token.name)
  {
    hide FileFollows, WellFormed;
    var f, parts := File(dir, NativeTokens), Parts(s.phase, before, after, {});
    assert f !in s.phase && parts(f) == Rows(before, f, {});
    assert [token][..0] == [];
    assert Rows(before, f, {}) == TokenRows([token], "alpha", dir.network);
    assert KeyOfToken(token) in parts(f);
  }

  /** A concrete sync that leaves a stale row: the three steps for the app.json of a renamed chain
      end the sync, and the row of its token still carries the old name. */
  lemma RenamedChainKeepsStaleTokens(index: Index, dir: Dir, token: Token, before: Tree,
                                     after: Tree, diff: Diff)
    requires Renamed(dir, token, before, after, diff)
    requires WellFormed(before) && WellFormed(after) && Describes(index, before, {})
    ensures
      var app := AppFile(dir);
      var s0 := Sync(index, map[], map[app := Pending], [], []);
      var s1 := Advance(s0, app, Modified, after, before, {});
      && s1.Some?
      && var s2 := Advance(s1.value, app, Modified, after, before, {});
      && s2.Some?
      && var s3 := Advance(s2.value, app, Modified, after, before, {});
      && s3.Some? && s3.value.phase == map[app := Done]
      && KeyOfToken(token) in s3.value.work
      && s3.value.work[KeyOfToken(token)] == TokenRow("alpha", dir.network, token.name)
      && !Describes(s3.value.work, after, {})
  {
    hide Rows, Exactly, Inv, Advance, Describes, WellFormed, NamesKept;
    var app := AppFile(dir);
    RenamedIsASetting(dir, token, before, after, diff);
    var s0 := Sync(index, map[], map[app := Pending], [], []);
    FreshSync(index, s0, diff, before, after, {});
    StepKeepsInv(s0, diff, before, after, {}, app);
    var s1 := Advance(s0, app, Modified, after, before, {}).value;
    StepKeepsInv(s1, diff, before, after, {}, app);
    var s2 := Advance(s1, app, Modified, after, before, {}).value;
    StepKeepsInv(s2, diff, before, after, {}, app);
    var s3 := Advance(s2, app, Modified, after, before, {}).value;
    UntouchedTokenRow(s3, dir, token, before, after, diff);
    SyncRefinesRebuildIff(s3, diff, before, after, {});
  }

  lemma OneAppIsDisjoint(dir: Dir, before: Tree, after: Tree)
    requires WellFormed(before) && WellFormed(after)
    requires forall f | f in before || f in after :: f.dir == dir
    ensures DisjointKeys(before, after, {})
  {
    forall f, g, k |
        && (k in Rows(before, f, {}) || k in Rows(after, f, {}))
        && (k in Rows(before, g, {}) || k in Rows(after, g, {}))
      ensures f == g
    {
      hide Rows;
      KindsOfKeys(before, f);
      KindsOfKeys(after, f);
      KindsOfKeys(before, g);
      KindsOfKeys(after, g);
    }
  }

  lemma KindsOfKeys(tree: Tree, f: File)
    requires WellFormed(tree)
    ensures forall k | k in Rows(tree, f, {}) :: f in tree && (f.kind == AppJson <==> k.AppKey?)
  {
    if f in tree && f.kind == NativeTokens {
      TokenRowsHaveTokenKeys(tree[f].tokens, tree[AppFile(f.dir)].meta.chainName, f.dir.network);
    }
  }

  lemma BothNames(work: Index, before: Tree, after: Tree, defaults: set<string>, f: File,
                  parts: File -> Index, parts': File -> Index)
    requires WellFormed(before) && WellFormed(after)
    requires f in before && f in after && before[f] == after[f]
    requires f.kind == NativeTokens && before[f].tokens != []
    requires Exactly(work, parts) && Exactly(work, parts')
    requires parts(f) == Rows(before, f, defaults) && parts'(f) == Rows(after, f, defaults)
    ensures before[AppFile(f.dir)].meta.chainName == after[AppFile(f.dir)].meta.chainName
  {
    var tokens := before[f].tokens;
    var k := KeyOfToken(tokens[0]);
    TokenRowsHaveTokenKeys(tokens, before[AppFile(f.dir)].meta.chainName, f.dir.network);
    TokenRowsHaveTokenKeys(tokens, after[AppFile(f.dir)].meta.chainName, f.dir.network);
    assert k in TokenKeys(tokens);
    assert work[k] == parts(f)[k] == parts'(f)[k];
  }

  lemma FreshSync(index: Index, s: Sync, diff: Diff, before: Tree, after: Tree,
                  defaults: set<string>)
    requires WellFormed(before) && WellFormed(after) && Describes(index, before, defaults)
    requires s.work == index && s.temp == map[] && s.toDelete == [] == s.toMove
    requires s.phase.Keys == diff.Keys && forall f | f in s.phase :: s.phase[f] == Pending
    ensures Inv(s, diff, before, after, defaults)
  {
    SameParts(index, f => Rows(before, f, defaults), Parts(s.phase, before, after, defaults));
  }

  // ---- The registry ----

  class Registry {
    const defaults: set<string>
    var live: Tree
    var index: Index

    constructor (live: Tree, index: Index, defaults: set<string>)
      ensures this.live == live && this.index == index && this.defaults == defaults
    {
      this.live, this.index, this.defaults := live, index, defaults;
    }

    method DeleteFiles(files: seq<File>)
      modifies this`live
      ensures forall f :: f in live <==> f in old(live) && f !in files
      ensures forall f | f in live :: live[f] == old(live)[f]
    {
      for i := 0 to |files|
        invariant forall f :: f in live <==> f in old(live) && f !in files[..i]
        invariant forall f | f in live :: live[f] == old(live)[f]
      {
        assert files[..i + 1] == files[..i] + [files[i]];
        live := live - {files[i]};
      }
      assert files[..|files|] == files;
    }

    method MoveFiles(files: seq<File>, from: Tree)
      requires forall f | f in files :: f in from
      modifies this`live
      ensures forall f :: f in live <==> f in old(live) || f in files
      ensures forall f | f in files :: live[f] == from[f]
      ensures forall f | f in live && f !in files :: live[f] == old(live)[f]
    {
      for i := 0 to |files|
        invariant forall f :: f in live <==> f in old(live) || f in files[..i]
        invariant forall f | f in files[..i] :: live[f] == from[f]
        invariant forall f | f in live && f !in files[..i] :: live[f] == old(live)[f]
      {
        assert files[..i + 1] == files[..i] + [files[i]];
        live := live[files[i] := from[files[i]]];
      }
      assert files[..|files|] == files;
    }

    /**
     * One sync. `phases` has every file of the diff pending. The schedule says which file moves
     * next, so it stands for any interleaving of the apps; one that leaves a file undone stands for
     * a failure, after which the transaction is rolled back. No other failure is possible: every
     * read of an app.json finds a file.
     */
    method SyncWithRemote(diff: Diff, remote: Tree, phases: map<File, Phase>, schedule: seq<File>)
      returns (ok: bool)
      requires Setting(diff, live, remote, defaults) && Describes(index, live, defaults)
      requires phases.Keys == diff.Keys && forall f | f in phases :: phases[f] == Pending
      modifies this
      ensures ok <==> forall f | f in diff :: PhasesAfter(phases, diff, schedule)[f] == Done
      ensures !ok ==> live == old(live) && index == old(index)
      ensures ok ==> live == remote
      ensures ok ==>
        (Describes(index, live, defaults) <==> NamesKept(diff, old(live), remote))
    {
      hide Advance, Inv, Describes, DisjointKeys, WellFormed, NamesKept, FileFollows, ExactDiff;
      var s := Sync(index, map[], phases, [], []);
      FreshSync(index, s, diff, live, remote, defaults);
      for i := 0 to |schedule|
        invariant live == old(live) && index == old(index) && Inv(s, diff, live, remote, defaults)
        invariant s.phase == PhasesAfter(phases, diff, schedule[..i])
      {
        assert schedule[..i + 1][..i] == schedule[..i];
        if Enabled(s.phase, schedule[i]) {
          InDiff(diff, live, remote, schedule[i]);
          StepKeepsInv(s, diff, live, remote, defaults, schedule[i]);
          s := Advance(s, schedule[i], diff[schedule[i]], remote, live, defaults).value;
        }
      }
      assert schedule[..|schedule|] == schedule;
      InvGivesFiles(s, diff, live, remote, defaults);
      ok := forall f | f in diff :: s.phase[f] == Done;
      if ok {
        SyncRefinesRebuildIff(s, diff, live, remote, defaults);
        index := s.work;
        TempHoldsMoves(s, diff, remote);
        DeleteFiles(s.toDelete);
        ghost var kept := live;
        MoveFiles(s.toMove, s.temp);
        forall f ensures Settled(s, old(live), kept, live, f) {
        }
        LiveIsRemote(s, diff, old(live), kept, live, remote);
      }
    }
  }

  lemma InvGivesFiles(s: Sync, diff: Diff, before: Tree, after: Tree, defaults: set<string>)
    requires WellFormed(before) && WellFormed(after) && Inv(s, diff, before, after, defaults)
    ensures FilesFollow(s, diff, after)
  {
  }

  lemma TempHoldsMoves(s: Sync, diff: Diff, after: Tree)
    requires FilesFollow(s, diff, after)
    ensures forall f | f in s.toMove :: f in s.temp
  {
    forall f | f in s.toMove ensures f in s.temp {
      assert FileFollows(s, diff, after, f);
    }
  }

  /** What the deferred work makes of one file. */
  ghost predicate Settled(s: Sync, before: Tree, kept: Tree, live: Tree, f: File) {
    && (f in kept <==> f in before && f !in s.toDelete)
    && (f in kept ==> kept[f] == before[f])
    && (f in live <==> f in kept || f in s.toMove)
    && (f in s.toMove ==> f in s.temp && live[f] == s.temp[f])
    && (f in live && f !in s.toMove ==> live[f] == kept[f])
  }

  lemma FileIsRemote(s: Sync, diff: Diff, before: Tree, kept: Tree, live: Tree, after: Tree,
                     f: File)
    requires s.phase.Keys == diff.Keys && FileFollows(s, diff, after, f)
    requires f in diff ==> s.phase[f] == Done
    requires ExactDiff(diff, before, after) && Settled(s, before, kept, live, f)
    ensures f in live <==> f in after
    ensures f in live ==> live[f] == after[f]
  {
  }

  /** The deferred deletions and moves turn the old live tree into the new one. */
  lemma LiveIsRemote(s: Sync, diff: Diff, before: Tree, kept: Tree, live: Tree, after: Tree)
    requires FilesFollow(s, diff, after) && ExactDiff(diff, before, after)
    requires forall f | f in diff :: s.phase[f] == Done
    requires forall f :: Settled(s, before, kept, live, f)
    ensures live == after
  {
    hide FileFollows, ExactDiff, Settled;
    forall f ensures f in live <==> f in after
             ensures f in live ==> live[f] == after[f] {
      assert FileFollows(s, diff, after, f) && Settled(s, before, kept, live, f);
      FileIsRemote(s, diff, before, kept, live, after, f);
    }
    assert live.Keys == after.Keys;
  }
}
