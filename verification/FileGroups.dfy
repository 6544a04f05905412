/** The changed files of a registry diff, sorted and grouped by application. */
module FileGroups {
  import opened MetadataIndex
  import opened RegistrySync
  import Sorting

  /** The last three parts of a path, and what happened to the file. */
  datatype FileInfo = FileInfo(dir: Dir, name: string, status: Status)

  const APP_JSON := "app.json"
  const NATIVETOKENS_JSON := "nativetokens.json"

  function Path(f: FileInfo): string {
    f.dir.network + "/" + f.dir.app + "/" + f.name
  }

  predicate EndsIn(s: string, end: string) {
    |end| <= |s| && s[|s| - |end|..] == end
  }

  /** Metadata files of the supported networks. */
  predicate Wanted(f: FileInfo, networks: set<string>) {
    f.dir.network in networks && (EndsIn(f.name, APP_JSON) || EndsIn(f.name, NATIVETOKENS_JSON))
  }

  lemma WantedIff(f: FileInfo, networks: set<string>)
    ensures Wanted(f, networks) <==>
      && f.dir.network in networks
      && ((exists p :: f.name == p + "app.json") || exists p :: f.name == p + "nativetokens.json")
  {
    EndsInIff(f.name, "app.json");
    EndsInIff(f.name, "nativetokens.json");
  }

  lemma EndsInIff(s: string, end: string)
    ensures EndsIn(s, end) <==> exists p :: s == p + end
  {
    if EndsIn(s, end) {
      assert s == s[..|s| - |end|] + end;
    }
    if p :| s == p + end {
      assert s[|s| - |end|..] == end;
    }
  }

  /** The order of file names, as positions on a line. */
  type Order = string -> real

  function Position(order: Order): FileInfo -> real {
    (f: FileInfo) => order(Path(f))
  }

  /** The wanted files of one directory, in the order of the list. */
  function Of(files: seq<FileInfo>, networks: set<string>, dir: Dir): seq<FileInfo> {
    if files == [] then []
    else
      var last := files[|files| - 1];
      Of(files[..|files| - 1], networks, dir)
      + if last.dir == dir && Wanted(last, networks) then [last] else []
  }

  lemma {:induction false} OfMembers(files: seq<FileInfo>, networks: set<string>, dir: Dir,
                                     f: FileInfo)
    ensures f in Of(files, networks, dir)
            <==> f in files && f.dir == dir && Wanted(f, networks)
  {
    hide Wanted;
    if files != [] {
      var init, last := files[..|files| - 1], files[|files| - 1];
      OfMembers(init, networks, dir, f);
      assert f in files <==> f in init || f == last;
    }
  }

  ghost predicate Ascending(files: seq<FileInfo>, order: Order) {
    forall i, j | 0 <= i < j < |files| :: order(Path(files[i])) <= order(Path(files[j]))
  }

  lemma {:induction false} OfAscends(files: seq<FileInfo>, networks: set<string>, dir: Dir,
                                     order: Order)
    requires Ascending(files, order)
    ensures Ascending(Of(files, networks, dir), order)
  {
    hide Wanted, Path;
    if files != [] {
      var init, last := files[..|files| - 1], files[|files| - 1];
      OfAscends(init, networks, dir, order);
      var group := Of(init, networks, dir);
      forall i | 0 <= i < |group| ensures order(Path(group[i])) <= order(Path(last)) {
        OfMembers(init, networks, dir, group[i]);
        var j :| 0 <= j < |init| && init[j] == group[i];
      }
    }
  }

  lemma SortedFilesAscend(files: seq<FileInfo>, order: Order)
    ensures Ascending(Sorting.Sort(files, Position(order)), order)
    ensures multiset(Sorting.Sort(files, Position(order))) == multiset(files)
  {
    var sorted := Sorting.Sort(files, Position(order));
    Sorting.SortIsSortedPermutation(files, Position(order));
    forall i, j | 0 <= i < j < |sorted|
      ensures order(Path(sorted[i])) <= order(Path(sorted[j]))
    {
      assert Position(order)(sorted[i]) <= Position(order)(sorted[j]);
    }
  }

  /** The groups hold exactly the wanted files, each with the files of its directory, and every
      group is sorted. */
  method GroupFiles(files: seq<FileInfo>, networks: set<string>, order: Order)
    returns (groups: map<Dir, seq<FileInfo>>)
    ensures forall dir | dir in groups :: groups[dir] != [] && Ascending(groups[dir], order)
    ensures forall f ::
      f in files && Wanted(f, networks) <==> f.dir in groups && f in groups[f.dir]
    ensures forall dir, f | dir in groups && f in groups[dir] :: f.dir == dir
  {
    hide Wanted, Path, Of, Ascending, Position, Sorting.Sort;
    var sorted := Sorting.Sort(files, Position(order));
    SortedFilesAscend(files, order);
    groups := map[];
    NothingGrouped(networks);
    assert sorted[..0] == [];
    for i := 0 to |sorted|
      invariant Grouped(groups, sorted[..i], networks)
    {
      GroupOneMore(groups, sorted, i, networks);
      groups := AddToGroup(groups, sorted[i], networks);
    }
    assert sorted[..|sorted|] == sorted;
    GroupsAreRight(files, sorted, networks, order, groups);
  }

  /** The groups of the files seen so far. */
  ghost predicate Grouped(groups: map<Dir, seq<FileInfo>>, files: seq<FileInfo>,
                          networks: set<string>)
  {
    && (forall dir :: dir in groups <==> Of(files, networks, dir) != [])
    && (forall dir | dir in groups :: groups[dir] == Of(files, networks, dir))
  }

  lemma NothingGrouped(networks: set<string>)
    ensures Grouped(map[], [], networks)
  {
  }

  function GroupOf(groups: map<Dir, seq<FileInfo>>, dir: Dir): seq<FileInfo> {
    if dir in groups then groups[dir] else []
  }

  /** Puts one file into its group, which is made if need be; other files are passed over. */
  method AddToGroup(groups: map<Dir, seq<FileInfo>>, f: FileInfo, networks: set<string>)
    returns (r: map<Dir, seq<FileInfo>>)
    ensures r == if Wanted(f, networks) then groups[f.dir := GroupOf(groups, f.dir) + [f]]
                 else groups
  {
    r := groups;
    if Wanted(f, networks) {
      if f.dir !in r {
        r := r[f.dir := []];
      }
      r := r[f.dir := r[f.dir] + [f]];
    }
  }

  lemma OfOneMore(files: seq<FileInfo>, i: nat, networks: set<string>, dir: Dir)
    requires i < |files|
    ensures Of(files[..i + 1], networks, dir) == Of(files[..i], networks, dir)
      + if files[i].dir == dir && Wanted(files[i], networks) then [files[i]] else []
  {
    hide Wanted;
    assert files[..i + 1][..i] == files[..i];
  }

  lemma GroupOneMore(groups: map<Dir, seq<FileInfo>>, files: seq<FileInfo>, i: nat,
                     networks: set<string>)
    requires i < |files| && Grouped(groups, files[..i], networks)
    ensures var f := files[i];
            Grouped(if Wanted(f, networks) then groups[f.dir := GroupOf(groups, f.dir) + [f]]
                    else groups, files[..i + 1], networks)
  {
    hide Wanted, Of;
    forall dir ensures Of(files[..i + 1], networks, dir) == Of(files[..i], networks, dir)
      + if files[i].dir == dir && Wanted(files[i], networks) then [files[i]] else []
    {
      OfOneMore(files, i, networks, dir);
    }
  }

  lemma GroupsAreRight(files: seq<FileInfo>, sorted: seq<FileInfo>, networks: set<string>,
                       order: Order, groups: map<Dir, seq<FileInfo>>)
    requires multiset(sorted) == multiset(files) && Ascending(sorted, order)
    requires Grouped(groups, sorted, networks)
    ensures forall dir | dir in groups :: groups[dir] != [] && Ascending(groups[dir], order)
    ensures forall f ::
      f in files && Wanted(f, networks) <==> f.dir in groups && f in groups[f.dir]
    ensures forall dir, f | dir in groups && f in groups[dir] :: f.dir == dir
  {
    hide Wanted, Of, Ascending;
    forall dir | dir in groups ensures Ascending(groups[dir], order) {
      OfAscends(sorted, networks, dir, order);
    }
    forall f ensures f in files && Wanted(f, networks) <==> f.dir in groups && f in groups[f.dir] {
      OfMembers(sorted, networks, f.dir, f);
      assert f in files <==> f in multiset(files);
      assert f in sorted <==> f in multiset(sorted);
    }
    forall dir, f | dir in groups && f in groups[dir] ensures f.dir == dir {
      OfMembers(sorted, networks, dir, f);
    }
  }

  /** What the sort is for: where the order has app.json before nativetokens.json, so has every
      sorted group. */
  lemma AppJsonComesFirst(group: seq<FileInfo>, order: Order, dir: Dir)
    requires Ascending(group, order) && forall f | f in group :: f.dir == dir
    requires order(dir.network + "/" + dir.app + "/" + APP_JSON)
             < order(dir.network + "/" + dir.app + "/" + NATIVETOKENS_JSON)
    ensures forall i, j | 0 <= i < |group| && 0 <= j < |group| && group[i].name == APP_JSON
              && group[j].name == NATIVETOKENS_JSON :: i < j
  {
    forall i, j | 0 <= i < |group| && 0 <= j < |group| && group[i].name == APP_JSON
      && group[j].name == NATIVETOKENS_JSON
      ensures i < j
    {
      assert group[i] in group && group[j] in group;
      assert order(Path(group[i])) < order(Path(group[j]));
    }
  }
}
