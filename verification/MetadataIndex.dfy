/** The index of blockchain application metadata, and the files it is built from. */
module MetadataIndex {
  import opened Options

  /** An application's directory in the registry. */
  datatype Dir = Dir(network: string, app: string)

  datatype Kind = AppJson | NativeTokens

  datatype File = File(dir: Dir, kind: Kind)

  datatype AppMeta = AppMeta(networkType: string, chainName: string, chainID: string,
                             displayName: string)

  datatype Token = Token(id: string, name: string)

  datatype Content = App(meta: AppMeta) | Tokens(tokens: seq<Token>)

  type Tree = map<File, Content>

  /** The rows of both tables, each under the primary key of its table. */
  datatype Key = AppKey(network: string, chainName: string) | TokenKey(id: string)

  datatype Row =
    | AppRow(chainID: string, displayName: string, isDefault: bool, appDirName: string)
    | TokenRow(chainName: string, network: string, tokenName: string)

  type Index = map<Key, Row>

  function AppFile(dir: Dir): File {
    File(dir, AppJson)
  }

  function LowerChar(c: char): char {
    if 'A' <= c <= 'Z' then c - 'A' + 'a' else c
  }

  function Lower(s: string): string {
    seq(|s|, i requires 0 <= i < |s| => LowerChar(s[i]))
  }

  // ---- Rows of one file ----

  function KeyOfApp(meta: AppMeta): Key {
    AppKey(meta.networkType, meta.chainName)
  }

  function AppRows(meta: AppMeta, dir: Dir, defaults: set<string>): Index {
    map[KeyOfApp(meta) :=
          AppRow(meta.chainID, meta.displayName, meta.chainName in defaults, dir.app)]
  }

  function KeyOfToken(token: Token): Key {
    TokenKey(Lower(token.id))
  }

  function TokenKeys(tokens: seq<Token>): set<Key> {
    set t | t in tokens :: KeyOfToken(t)
  }

  /** The upsert of a list of tokens; a later row replaces an earlier one with the same id. */
  function TokenRows(tokens: seq<Token>, chainName: string, network: string): Index {
    if tokens == [] then map[]
    else
      var k := |tokens| - 1;
      TokenRows(tokens[..k], chainName, network)
        [KeyOfToken(tokens[k]) := TokenRow(chainName, network, tokens[k].name)]
  }

  lemma {:induction false} TokenRowsHaveTokenKeys(tokens: seq<Token>, chainName: string,
                                                  network: string)
    ensures TokenRows(tokens, chainName, network).Keys == TokenKeys(tokens)
    ensures forall k | k in TokenRows(tokens, chainName, network) ::
      var row := TokenRows(tokens, chainName, network)[k];
      row.TokenRow? && row.chainName == chainName
  {
    if tokens != [] {
      var init, last := tokens[..|tokens| - 1], tokens[|tokens| - 1];
      TokenRowsHaveTokenKeys(init, chainName, network);
      assert tokens == init + [last];
      assert TokenKeys(tokens) == TokenKeys(init) + {KeyOfToken(last)};
    }
  }

  // ---- One file in or out of the index ----

  /** The app.json a file is read with: the downloaded one if there is one, else the live one. */
  function ReadApp(temp: Tree, live: Tree, dir: Dir): Option<AppMeta> {
    var file := AppFile(dir);
    var content := if file in temp then Some(temp[file])
                   else if file in live then Some(live[file]) else None;
    if content.Some? && content.value.App? then Some(content.value.meta) else None
  }

  /** Indexes a file found in the directory tree `here`. None: a file is missing or malformed. */
  function IndexFile(index: Index, here: Tree, live: Tree, file: File, defaults: set<string>)
    : Option<Index>
  {
    match ReadApp(here, live, file.dir)
    case None => None
    case Some(meta) =>
      if file.kind == AppJson then Some(index + AppRows(meta, file.dir, defaults))
      else if file in here && here[file].Tokens? then
        Some(index + TokenRows(here[file].tokens, meta.chainName, file.dir.network))
      else None
  }

  /** Takes the rows of a live file out of the index. */
  function DeleteFile(index: Index, live: Tree, file: File): Option<Index> {
    match ReadApp(map[], live, file.dir)
    case None => None
    case Some(meta) =>
      if file.kind == AppJson then Some(index - {KeyOfApp(meta)})
      else if file in live && live[file].Tokens? then
        Some(index - TokenKeys(live[file].tokens))
      else None
  }

  // ---- What an index should hold ----

  /** Files hold what their name says, and a token list always has an app.json beside it. */
  ghost predicate WellFormed(tree: Tree) {
    && (forall f | f in tree :: f.kind == AppJson <==> tree[f].App?)
    && (forall f | f in tree :: AppFile(f.dir) in tree)
  }

  /** The rows that a file of a tree stands for. */
  ghost function Rows(tree: Tree, file: File, defaults: set<string>): Index
    requires WellFormed(tree)
  {
    if file !in tree then map[]
    else
      var meta := tree[AppFile(file.dir)].meta;
      if file.kind == AppJson then AppRows(meta, file.dir, defaults)
      else TokenRows(tree[file].tokens, meta.chainName, file.dir.network)
  }

  /** No two files, in the trees before and after, stand for rows with the same key. */
  ghost predicate DisjointKeys(before: Tree, after: Tree, defaults: set<string>)
    requires WellFormed(before) && WellFormed(after)
  {
    forall f, g, k | f != g &&
        (k in Rows(before, f, defaults) || k in Rows(after, f, defaults)) ::
      k !in Rows(before, g, defaults) && k !in Rows(after, g, defaults)
  }

  /** The index is the union of the given parts, one per file. */
  ghost predicate Exactly(index: Index, parts: File -> Index) {
    && (forall f, k | k in parts(f) :: k in index && index[k] == parts(f)[k])
    && (forall k | k in index :: exists f :: k in parts(f))
  }

  /** The index describes the tree: it holds the rows of its files and nothing else. */
  ghost predicate Describes(index: Index, tree: Tree, defaults: set<string>)
    requires WellFormed(tree)
  {
    Exactly(index, f => Rows(tree, f, defaults))
  }

  /** A tree has at most one index that describes it. */
  lemma DescriptionIsUnique(a: Index, b: Index, tree: Tree, defaults: set<string>)
    requires WellFormed(tree) && Describes(a, tree, defaults) && Describes(b, tree, defaults)
    ensures a == b
  {
    HoldsTheSame(a, b, tree, defaults);
    HoldsTheSame(b, a, tree, defaults);
    assert a.Keys == b.Keys;
  }

  lemma HoldsTheSame(a: Index, b: Index, tree: Tree, defaults: set<string>)
    requires WellFormed(tree) && Describes(a, tree, defaults) && Describes(b, tree, defaults)
    ensures forall k | k in a :: k in b && a[k] == b[k]
  {
    var parts := f => Rows(tree, f, defaults);
    forall k | k in a ensures k in b && a[k] == b[k] {
      var f :| k in parts(f);
    }
  }

  /** Replacing the part of one file, when its keys are its own. */
  lemma ReplacePart(index: Index, parts: File -> Index, file: File, keys: set<Key>, rows: Index,
                    parts': File -> Index)
    requires Exactly(index, parts)
    requires parts(file).Keys <= keys
    requires forall g, k | g != file && k in parts(g) :: k !in keys && k !in rows
    requires parts'(file) == rows
    requires forall g | g != file :: parts'(g) == parts(g)
    ensures Exactly((index - keys) + rows, parts')
  {
    var result := (index - keys) + rows;
    forall f, k | k in parts'(f) ensures k in result && result[k] == parts'(f)[k] {
      if f != file {
        assert k in parts(f);
      }
    }
    forall k | k in result ensures exists f :: k in parts'(f) {
      if k in rows {
        assert k in parts'(file);
      } else {
        var f :| k in parts(f);
        assert k in parts'(f);
      }
    }
  }

  // ---- What the two operations do ----

  lemma DeleteFileRemovesItsRows(index: Index, live: Tree, file: File, defaults: set<string>)
    requires WellFormed(live) && file in live
    ensures DeleteFile(index, live, file)
            == Some(index - Rows(live, file, defaults).Keys)
  {
    var meta := live[AppFile(file.dir)].meta;
    if file.kind == AppJson {
      assert AppRows(meta, file.dir, defaults).Keys == {KeyOfApp(meta)};
    } else {
      TokenRowsHaveTokenKeys(live[file].tokens, meta.chainName, file.dir.network);
    }
  }

  /** When the app.json that will be read is the one of `tree`, so are the rows. */
  lemma IndexFileAddsItsRows(index: Index, here: Tree, live: Tree, file: File, tree: Tree,
                             defaults: set<string>)
    requires WellFormed(tree) && file in tree && file in here && here[file] == tree[file]
    requires ReadApp(here, live, file.dir) == Some(tree[AppFile(file.dir)].meta)
    ensures IndexFile(index, here, live, file, defaults)
            == Some(index + Rows(tree, file, defaults))
  {
  }

  // ---- Rebuild ----

  /** The rows of the files dealt with so far. */
  ghost function Collected(tree: Tree, done: set<File>, defaults: set<string>): File -> Index
    requires WellFormed(tree)
  {
    f => if f in done then Rows(tree, f, defaults) else map[]
  }

  lemma RebuildStep(index: Index, tree: Tree, done: set<File>, file: File, defaults: set<string>)
    requires WellFormed(tree) && DisjointKeys(tree, tree, defaults) && file in tree
    requires Exactly(index, Collected(tree, done, defaults))
    ensures IndexFile(index, tree, tree, file, defaults).Some?
    ensures Exactly(IndexFile(index, tree, tree, file, defaults).value,
                    Collected(tree, done + {file}, defaults))
  {
    hide Rows, IndexFile, Exactly;
    var rows := Rows(tree, file, defaults);
    IndexFileAddsItsRows(index, tree, tree, file, tree, defaults);
    assert index + rows == (index - rows.Keys) + rows;
    ReplacePart(index, Collected(tree, done, defaults), file, rows.Keys, rows,
                Collected(tree, done + {file}, defaults));
  }

  /** The full rebuild: all files of the tree, in any order, into empty tables. */
  method IndexAll(tree: Tree, files: seq<File>, defaults: set<string>) returns (index: Index)
    requires WellFormed(tree) && DisjointKeys(tree, tree, defaults)
    requires forall f :: f in files <==> f in tree
    ensures Describes(index, tree, defaults)
  {
    hide IndexFile, Rows, Exactly, DisjointKeys, Describes;
    index := map[];
    ghost var done := {};
    NothingCollected(tree, defaults);
    for i := 0 to |files|
      invariant forall f :: f in done <==> f in files[..i]
      invariant Exactly(index, Collected(tree, done, defaults))
    {
      RebuildStep(index, tree, done, files[i], defaults);
      index := IndexFile(index, tree, tree, files[i], defaults).value;
      done := done + {files[i]};
    }
    AllCollected(index, tree, done, defaults);
  }

  lemma NothingCollected(tree: Tree, defaults: set<string>)
    requires WellFormed(tree)
    ensures Exactly(map[], Collected(tree, {}, defaults))
  {
  }

  lemma AllCollected(index: Index, tree: Tree, done: set<File>, defaults: set<string>)
    requires WellFormed(tree) && forall f :: f in done <==> f in tree
    requires Exactly(index, Collected(tree, done, defaults))
    ensures Describes(index, tree, defaults)
  {
    SameParts(index, Collected(tree, done, defaults), f => Rows(tree, f, defaults));
  }

  lemma SameParts(index: Index, parts: File -> Index, parts': File -> Index)
    requires Exactly(index, parts) && forall f :: parts(f) == parts'(f)
    ensures Exactly(index, parts')
  {
    forall k | k in index ensures exists f :: k in parts'(f) {
      var f :| k in parts(f);
      assert k in parts'(f);
    }
  }

  // ---- What the rows say ----

  /** `r` is `s` with the letters A to Z turned to a to z. */
  ghost predicate LowerCased(s: string, r: string) {
    && |r| == |s|
    && forall i | 0 <= i < |s| :: r[i] == if 'A' <= s[i] <= 'Z' then s[i] - 'A' + 'a' else s[i]
  }

  lemma LowerIsLowerCased(s: string, r: string)
    ensures LowerCased(s, r) <==> r == Lower(s)
  {
  }

  lemma {:induction false} LastTokenWins(tokens: seq<Token>, i: nat, id: string,
                                         chainName: string, network: string)
    requires i < |tokens| && Lower(tokens[i].id) == id
    requires forall j | i < j < |tokens| :: Lower(tokens[j].id) != id
    ensures var rows := TokenRows(tokens, chainName, network);
            TokenKey(id) in rows
            && rows[TokenKey(id)] == TokenRow(chainName, network, tokens[i].name)
  {
    hide Lower;
    var k := |tokens| - 1;
    if i < k {
      LastTokenWins(tokens[..k], i, id, chainName, network);
    }
  }

  /** An index that describes a tree has a row for every app.json: under its network type and chain
      name, with its chain ID and display name, its directory, and whether it is a default one. */
  lemma AppIsIndexed(index: Index, tree: Tree, defaults: set<string>, dir: Dir)
    requires WellFormed(tree) && Describes(index, tree, defaults) && File(dir, AppJson) in tree
    ensures var meta := tree[File(dir, AppJson)].meta;
            var key := AppKey(meta.networkType, meta.chainName);
            key in index
            && index[key] == AppRow(meta.chainID, meta.displayName, meta.chainName in defaults,
                                    dir.app)
  {
    var parts, f := (g: File) => Rows(tree, g, defaults), File(dir, AppJson);
    var meta := tree[f].meta;
    assert AppKey(meta.networkType, meta.chainName) in parts(f);
  }

  /** And for every token that no later one in its list repeats: under its lower-cased id, with the
      chain name from the app.json and the network of the directory. */
  lemma TokenIsIndexed(index: Index, tree: Tree, defaults: set<string>, dir: Dir, i: nat,
                       id: string)
    requires WellFormed(tree) && Describes(index, tree, defaults)
    requires File(dir, NativeTokens) in tree && i < |tree[File(dir, NativeTokens)].tokens|
    requires LowerCased(tree[File(dir, NativeTokens)].tokens[i].id, id)
    requires forall j | i < j < |tree[File(dir, NativeTokens)].tokens| ::
      !LowerCased(tree[File(dir, NativeTokens)].tokens[j].id, id)
    ensures TokenKey(id) in index
    ensures index[TokenKey(id)] == TokenRow(tree[File(dir, AppJson)].meta.chainName, dir.network,
                                            tree[File(dir, NativeTokens)].tokens[i].name)
  {
    var parts, f := (g: File) => Rows(tree, g, defaults), File(dir, NativeTokens);
    var tokens, meta := tree[f].tokens, tree[AppFile(dir)].meta;
    forall j | i <= j < |tokens|
      ensures LowerCased(tokens[j].id, id) <==> Lower(tokens[j].id) == id
    {
      LowerIsLowerCased(tokens[j].id, id);
    }
    LastTokenWins(tokens, i, id, meta.chainName, dir.network);
    assert TokenKey(id) in parts(f);
  }

  /** No row is without its file. */
  lemma EveryRowHasAFile(index: Index, tree: Tree, defaults: set<string>, key: Key)
    requires WellFormed(tree) && Describes(index, tree, defaults) && key in index
    ensures match key
      case AppKey(network, chainName) =>
        exists dir :: File(dir, AppJson) in tree
          && tree[File(dir, AppJson)].meta.networkType == network
          && tree[File(dir, AppJson)].meta.chainName == chainName
      case TokenKey(id) =>
        exists dir, i :: File(dir, NativeTokens) in tree
          && 0 <= i < |tree[File(dir, NativeTokens)].tokens|
          && LowerCased(tree[File(dir, NativeTokens)].tokens[i].id, id)
  {
    var parts := (g: File) => Rows(tree, g, defaults);
    var f :| key in parts(f);
    var meta := tree[AppFile(f.dir)].meta;
    if f.kind == NativeTokens {
      var tokens := tree[f].tokens;
      TokenRowsHaveTokenKeys(tokens, meta.chainName, f.dir.network);
      var token :| token in tokens && KeyOfToken(token) == key;
      var i :| 0 <= i < |tokens| && tokens[i] == token;
      LowerIsLowerCased(token.id, key.id);
      assert f == File(f.dir, NativeTokens);
    } else {
      assert f == File(f.dir, AppJson);
    }
  }
}
