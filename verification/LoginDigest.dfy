/** The login-state comparison of the promotion helper: a directory is reduced
    to counts and one digest, and equal digests stand for equal contents. */
module LoginDigest {
  import opened Basics

  const NUL: Byte := 0

  type Path = seq<Byte>

  type Tree = map<Path, seq<Byte>>

  datatype File = File(path: Path, content: seq<Byte>)

  // ----- The hashed byte stream -----

  function Decimal(n: nat): (digits: seq<Byte>)
    ensures forall d <- digits :: 48 <= d <= 57
  {
    if n < 10 then [48 + n] else Decimal(n / 10) + [48 + n % 10]
  }

  function Value(digits: seq<Byte>): int {
    if digits == [] then 0 else Value(digits[..|digits| - 1]) * 10 + (digits[|digits| - 1] as int - 48)
  }

  lemma {:induction false} ValueOfDecimal(n: nat)
    ensures Value(Decimal(n)) == n
  {
    if n >= 10 {
      ValueOfDecimal(n / 10);
      assert Decimal(n)[..|Decimal(n)| - 1] == Decimal(n / 10);
    } else {
      assert [48 + n][..0] == [];
    }
  }

  /** POSIX paths hold no NUL. */
  predicate PosixPaths(files: seq<File>) {
    forall i :: 0 <= i < |files| ==> NUL !in files[i].path
  }

  function Record(f: File): seq<Byte> {
    f.path + [NUL] + Decimal(|f.content|) + [NUL] + f.content
  }

  function Stream(files: seq<File>): seq<Byte> {
    if files == [] then [] else Record(files[0]) + Stream(files[1..])
  }

  // The first NUL of a + NUL + x is behind a.
  lemma FirstNul(a: seq<Byte>, x: seq<Byte>, s: seq<Byte>)
    requires NUL !in a && s == a + [NUL] + x
    ensures |a| < |s| && s[|a|] == NUL && (forall i :: 0 <= i < |a| ==> s[i] != NUL)
    ensures s[..|a|] == a && s[|a| + 1..] == x
  {
    assert forall i :: 0 <= i < |a| ==> s[i] == a[i];
  }

  lemma SplitAtNul(a: seq<Byte>, x: seq<Byte>, b: seq<Byte>, y: seq<Byte>)
    requires NUL !in a && NUL !in b && a + [NUL] + x == b + [NUL] + y
    ensures a == b && x == y
  {
    var s := a + [NUL] + x;
    FirstNul(a, x, s);
    FirstNul(b, y, s);
    assert |a| == |b|;
  }

  lemma RecordIsSelfDelimiting(f: File, x: seq<Byte>, g: File, y: seq<Byte>)
    requires NUL !in f.path && NUL !in g.path && Record(f) + x == Record(g) + y
    ensures f == g && x == y
  {
    var fs, gs := Decimal(|f.content|), Decimal(|g.content|);
    var fRest, gRest := f.content + x, g.content + y;
    assert Record(f) + x == f.path + [NUL] + (fs + [NUL] + fRest);
    assert Record(g) + y == g.path + [NUL] + (gs + [NUL] + gRest);
    SplitAtNul(f.path, fs + [NUL] + fRest, g.path, gs + [NUL] + gRest);
    SplitAtNul(fs, fRest, gs, gRest);
    ValueOfDecimal(|f.content|);
    ValueOfDecimal(|g.content|);
    assert f.content == fRest[..|f.content|] == g.content;
    assert x == fRest[|f.content|..] == y;
  }

  /** The stream is uniquely decodable: path, NUL, size, NUL, content, file by file. */
  lemma {:induction false} StreamIsInjective(a: seq<File>, b: seq<File>)
    requires PosixPaths(a) && PosixPaths(b) && Stream(a) == Stream(b)
    ensures a == b
    decreases |a|
  {
    if a != [] && b != [] {
      RecordIsSelfDelimiting(a[0], Stream(a[1..]), b[0], Stream(b[1..]));
      StreamIsInjective(a[1..], b[1..]);
      assert a == [a[0]] + a[1..] && b == [b[0]] + b[1..];
    }
  }

  // ----- Directories -----

  /** `sorted(path.rglob("*"))`: the files of the tree, once each, in a fixed order. */
  ghost predicate IsListing(before: (Path, Path) -> bool, tree: Tree, files: seq<File>) {
    && (forall i, j :: 0 <= i < j < |files| ==> before(files[i].path, files[j].path))
    && (forall f <- files :: f.path in tree && tree[f.path] == f.content)
    && (forall p <- tree :: File(p, tree[p]) in files)
  }

  ghost predicate StrictOrder(before: (Path, Path) -> bool) {
    && (forall p: Path :: !before(p, p))
    && (forall p: Path, q: Path :: before(p, q) ==> !before(q, p))
    && (forall p: Path, q: Path :: p != q ==> before(p, q) || before(q, p))
  }

  lemma FindIn(before: (Path, Path) -> bool, tree: Tree, files: seq<File>, f: File) returns (j: nat)
    requires IsListing(before, tree, files) && f.path in tree && tree[f.path] == f.content
    ensures j < |files| && files[j] == f
  {
    assert File(f.path, tree[f.path]) == f;
    j :| 0 <= j < |files| && files[j] == f;
  }

  // Behind an equal start, the next file of one listing is not among the earlier ones of the other.
  lemma NotEarlier(before: (Path, Path) -> bool, a: seq<File>, b: seq<File>, n: nat, j: nat)
    requires StrictOrder(before) && forall i, k :: 0 <= i < k < |a| ==> before(a[i].path, a[k].path)
    requires n < |a| && n <= |b| && j < |b| && a[..n] == b[..n] && b[j] == a[n]
    ensures j >= n
  {
    assert forall i :: 0 <= i < n ==> a[..n][i] == b[..n][i];
  }

  lemma ListingsAgreeAt(before: (Path, Path) -> bool, tree: Tree, a: seq<File>, b: seq<File>, n: nat)
    requires StrictOrder(before) && IsListing(before, tree, a) && IsListing(before, tree, b)
    requires n < |a| && n <= |b| && a[..n] == b[..n]
    ensures n < |b| && a[n] == b[n]
  {
    var j := FindIn(before, tree, b, a[n]);
    NotEarlier(before, a, b, n, j);
    var k := FindIn(before, tree, a, b[n]);
    NotEarlier(before, b, a, n, k);
    assert j > n ==> before(b[n].path, b[j].path);
    assert k > n ==> before(a[n].path, a[k].path);
  }

  lemma {:induction false} ListingIsUnique(before: (Path, Path) -> bool, tree: Tree, a: seq<File>, b: seq<File>,
                                           n: nat)
    requires StrictOrder(before) && IsListing(before, tree, a) && IsListing(before, tree, b)
    requires n <= |a|
    ensures n <= |b| && a[..n] == b[..n]
  {
    if n > 0 {
      ListingIsUnique(before, tree, a, b, n - 1);
      ListingsAgreeAt(before, tree, a, b, n - 1);
      assert a[..n] == a[..n - 1] + [a[n - 1]] && b[..n] == b[..n - 1] + [b[n - 1]];
    }
  }

  lemma ListingDeterminesTree(before: (Path, Path) -> bool, s: Tree, t: Tree, files: seq<File>)
    requires IsListing(before, s, files) && IsListing(before, t, files)
    ensures s == t
  {
    forall p: Path ensures p in s <==> p in t {
      if p in s { assert File(p, s[p]) in files; }
      if p in t { assert File(p, t[p]) in files; }
    }
    forall p <- s ensures s[p] == t[p] {
      assert File(p, s[p]) in files;
    }
  }

  lemma SameTreeSameListing(before: (Path, Path) -> bool, tree: Tree, a: seq<File>, b: seq<File>)
    requires StrictOrder(before) && IsListing(before, tree, a) && IsListing(before, tree, b)
    ensures a == b
  {
    ListingIsUnique(before, tree, a, b, |a|);
    ListingIsUnique(before, tree, b, a, |b|);
    assert a[..|a|] == a && b[..|b|] == b;
  }

  /** Two directories have the same stream exactly when they hold the same
      paths with the same contents. */
  lemma SameStreamIffSameTree(before: (Path, Path) -> bool, s: Tree, a: seq<File>, t: Tree, b: seq<File>)
    requires StrictOrder(before) && IsListing(before, s, a) && IsListing(before, t, b) && PosixPaths(a)
             && PosixPaths(b)
    ensures Stream(a) == Stream(b) <==> s == t
    ensures s == t ==> a == b
  {
    if Stream(a) == Stream(b) {
      StreamIsInjective(a, b);
      ListingDeterminesTree(before, s, t, a);
    }
    if s == t { SameTreeSameListing(before, s, a, b); }
  }

  // ----- directory_state -----

  /** A hash value; the hash itself is a parameter. */
  type Digest = nat

  /** What the walk meets, in order. */
  datatype Item = Regular(file: File) | Unreadable(path: Path) | NotAFile

  /** The digest is None where the program stores the empty string. */
  datatype DirState = DirState(exists_: bool, files: nat, bytes: nat, digest: Option<Digest>)

  function Kept(items: seq<Item>, ignored: set<Path>, n: nat): seq<File>
    requires n <= |items|
  {
    if n == 0 then []
    else
      var before := Kept(items, ignored, n - 1);
      if items[n - 1].Regular? && items[n - 1].file.path !in ignored then before + [items[n - 1].file] else before
  }

  predicate Blocks(item: Item, ignored: set<Path>) { item.Unreadable? && item.path !in ignored }

  function Bytes(files: seq<File>): nat {
    if files == [] then 0 else Bytes(files[..|files| - 1]) + |files[|files| - 1].content|
  }

  lemma {:induction false} StreamSnoc(files: seq<File>, f: File)
    ensures Stream(files + [f]) == Stream(files) + Record(f)
    decreases |files|
  {
    if files == [] {
      assert [f][1..] == [];
    } else {
      assert (files + [f])[1..] == files[1..] + [f];
      StreamSnoc(files[1..], f);
    }
  }

  lemma BytesSnoc(files: seq<File>, f: File)
    ensures Bytes(files + [f]) == Bytes(files) + |f.content|
  {
    assert (files + [f])[..|files|] == files;
  }

  /** The first item the walk cannot read, or the number of items. */
  function Reach(items: seq<Item>, ignored: set<Path>, n: nat): (r: nat)
    requires n <= |items|
    ensures n <= r <= |items|
    decreases |items| - n
  {
    if n == |items| || Blocks(items[n], ignored) then n else Reach(items, ignored, n + 1)
  }

  /** A directory as the walk finds it: absent, or its items in order. */
  type Directory = Option<seq<Item>>

  /** The files of which the digest is to be taken, up to the first read error. */
  function Counted(items: seq<Item>, ignored: set<Path>): seq<File> {
    Kept(items, ignored, Reach(items, ignored, 0))
  }

  predicate Readable(items: seq<Item>, ignored: set<Path>) {
    Reach(items, ignored, 0) == |items|
  }

  function StateOf(directory: Directory, ignored: set<Path>, hash: seq<Byte> -> Digest): DirState {
    match directory
    case None => DirState(false, 0, 0, None)
    case Some(items) =>
      var files := Counted(items, ignored);
      DirState(true, |files|, Bytes(files), if Readable(items, ignored) then Some(hash(Stream(files))) else None)
  }

  /** directory_state: counts and digest of the files outside `ignored`; a read
      error gives up the digest and keeps the counts so far. */
  method DirectoryState(directory: Directory, ignored: set<Path>, hash: seq<Byte> -> Digest)
    returns (state: DirState)
    ensures state == StateOf(directory, ignored, hash)
  {
    if directory.None? {
      return DirState(false, 0, 0, None);
    }
    var items := directory.value;
    var updates: seq<Byte> := [];
    var files, size := 0, 0;
    for index := 0 to |items|
      invariant updates == Stream(Kept(items, ignored, index))
      invariant files == |Kept(items, ignored, index)| && size == Bytes(Kept(items, ignored, index))
      invariant Reach(items, ignored, 0) == Reach(items, ignored, index)
    {
      var item := items[index];
      if item.NotAFile? {
        continue;
      }
      if item.Unreadable? {
        if item.path in ignored {
          continue;
        }
        return DirState(true, files, size, None);
      }
      if item.file.path in ignored {
        continue;
      }
      StreamSnoc(Kept(items, ignored, index), item.file);
      BytesSnoc(Kept(items, ignored, index), item.file);
      updates := updates + Record(item.file);
      files, size := files + 1, size + |item.file.content|;
    }
    return DirState(true, files, size, Some(hash(updates)));
  }

  // ----- login_state_is_preserved -----

  datatype LoginState = LoginState(registry: Option<Digest>, userCache: DirState, sharedState: DirState)

  predicate UsableDir(d: DirState) { d.exists_ && d.files > 0 && d.digest.Some? }

  predicate Usable(l: LoginState) {
    l.registry.Some? && (UsableDir(l.userCache) || UsableDir(l.sharedState))
  }

  predicate DirPreserved(prior: DirState, current: DirState) {
    prior.exists_ ==>
      current.exists_ && prior.files == current.files && prior.bytes == current.bytes && prior.digest == current.digest
  }

  predicate Preserved(prior: LoginState, current: LoginState) {
    && Usable(prior) && Usable(current) && prior.registry == current.registry
    && DirPreserved(prior.userCache, current.userCache) && DirPreserved(prior.sharedState, current.sharedState)
  }

  ghost predicate Injective(hash: seq<Byte> -> Digest) {
    forall x: seq<Byte>, y: seq<Byte> :: hash(x) == hash(y) ==> x == y
  }

  // ----- What preserved means -----

  /** `sorted(path.rglob("*"))`: no two regular files have one path, and no path holds a NUL. */
  ghost predicate InOrder(before: (Path, Path) -> bool, items: seq<Item>) {
    && (forall i, j :: 0 <= i < j < |items| && items[i].Regular? && items[j].Regular? ==>
                         before(items[i].file.path, items[j].file.path))
    && (forall i :: 0 <= i < |items| && items[i].Regular? ==> NUL !in items[i].file.path)
  }

  ghost predicate Walked(before: (Path, Path) -> bool, directory: Directory) {
    directory.Some? ==> InOrder(before, directory.value)
  }

  /** The regular files outside `ignored` with their contents. */
  function Contents(items: seq<Item>, ignored: set<Path>, n: nat): Tree
    requires n <= |items|
  {
    if n == 0 then map[]
    else
      var before := Contents(items, ignored, n - 1);
      if items[n - 1].Regular? && items[n - 1].file.path !in ignored
      then before[items[n - 1].file.path := items[n - 1].file.content] else before
  }

  lemma {:induction false} KeptIsListing(before: (Path, Path) -> bool, items: seq<Item>, ignored: set<Path>, n: nat)
    requires StrictOrder(before) && InOrder(before, items) && n <= |items|
    ensures IsListing(before, Contents(items, ignored, n), Kept(items, ignored, n))
    ensures PosixPaths(Kept(items, ignored, n))
    ensures forall p <- Contents(items, ignored, n) ::
              exists i :: 0 <= i < n && items[i].Regular? && items[i].file.path == p
  {
    if n > 0 {
      KeptIsListing(before, items, ignored, n - 1);
      var files, tree := Kept(items, ignored, n - 1), Contents(items, ignored, n - 1);
      if items[n - 1].Regular? && items[n - 1].file.path !in ignored {
        var f := items[n - 1].file;
        assert forall i :: 0 <= i < |files| ==> files[i].path in tree && before(files[i].path, f.path);
        assert f.path !in tree;
        ListOneMore(before, tree, files, f);
      }
    }
  }

  lemma ListOneMore(before: (Path, Path) -> bool, tree: Tree, files: seq<File>, f: File)
    requires IsListing(before, tree, files) && f.path !in tree
    requires forall i :: 0 <= i < |files| ==> before(files[i].path, f.path)
    ensures IsListing(before, tree[f.path := f.content], files + [f])
  {
    var more, all := tree[f.path := f.content], files + [f];
    assert all[|files|] == f;
    forall p <- more ensures File(p, more[p]) in all {
      if p != f.path {
        assert File(p, tree[p]) in files;
        assert forall g <- files :: g in all;
      }
    }
  }

  /** The second directory counts as holding what the first held: nothing if there
      was none, the same files if the first could be read, and otherwise no more
      than the same counts up to the first read error. */
  ghost predicate SameDirectory(prior: Directory, current: Directory, ignored: set<Path>) {
    match (prior, current)
    case (None, _) => true
    case (_, None) => false
    case (Some(a), Some(b)) =>
      && (Readable(a, ignored) <==> Readable(b, ignored))
      && if Readable(a, ignored) then Contents(a, ignored, |a|) == Contents(b, ignored, |b|)
         else |Counted(a, ignored)| == |Counted(b, ignored)| && Bytes(Counted(a, ignored)) == Bytes(Counted(b, ignored))
  }

  /** With a collision-free hash the comparison of two measured directories comes to that. */
  lemma DirectoryPreservedIff(before: (Path, Path) -> bool, hash: seq<Byte> -> Digest, ignored: set<Path>,
                              prior: Directory, current: Directory)
    requires StrictOrder(before) && Injective(hash) && Walked(before, prior) && Walked(before, current)
    ensures DirPreserved(StateOf(prior, ignored, hash), StateOf(current, ignored, hash))
            <==> SameDirectory(prior, current, ignored)
  {
    if prior.Some? && current.Some? {
      var a, b := prior.value, current.value;
      KeptIsListing(before, a, ignored, |a|);
      KeptIsListing(before, b, ignored, |b|);
      SameStreamIffSameTree(before, Contents(a, ignored, |a|), Kept(a, ignored, |a|),
                            Contents(b, ignored, |b|), Kept(b, ignored, |b|));
    }
  }

  /** The account data of a prefix. */
  datatype Account = Account(registry: Option<Digest>, userCache: Directory, sharedState: Directory)

  function Measure(account: Account, ignored: set<Path>, hash: seq<Byte> -> Digest): LoginState {
    LoginState(account.registry, StateOf(account.userCache, {}, hash), StateOf(account.sharedState, ignored, hash))
  }

  /** One of the two directories can be read and holds a file, and the registry has logins. */
  predicate UsableAccount(account: Account, ignored: set<Path>) {
    && account.registry.Some?
    && (|| (account.userCache.Some? && Readable(account.userCache.value, {})
            && Contents(account.userCache.value, {}, |account.userCache.value|) != map[])
        || (account.sharedState.Some? && Readable(account.sharedState.value, ignored)
            && Contents(account.sharedState.value, ignored, |account.sharedState.value|) != map[]))
  }

  lemma UsableDirIff(before: (Path, Path) -> bool, hash: seq<Byte> -> Digest, ignored: set<Path>, directory: Directory)
    requires StrictOrder(before) && Walked(before, directory)
    ensures UsableDir(StateOf(directory, ignored, hash)) <==>
              directory.Some? && Readable(directory.value, ignored)
              && Contents(directory.value, ignored, |directory.value|) != map[]
  {
    if directory.Some? {
      var items := directory.value;
      KeptIsListing(before, items, ignored, |items|);
      var files, tree := Kept(items, ignored, |items|), Contents(items, ignored, |items|);
      if files != [] {
        assert files[0].path in tree;
      }
      assert forall p <- tree :: File(p, tree[p]) in files;
      assert files == [] ==> tree.Keys == {};
    }
  }

  /** login_state_is_preserved on the measured accounts: the same logins in the
      registry, and in each directory outside the ignored paths the same files. */
  lemma LoginPreservedIff(before: (Path, Path) -> bool, hash: seq<Byte> -> Digest, ignored: set<Path>,
                          prior: Account, current: Account)
    requires StrictOrder(before) && Injective(hash)
    requires Walked(before, prior.userCache) && Walked(before, prior.sharedState)
    requires Walked(before, current.userCache) && Walked(before, current.sharedState)
    ensures Preserved(Measure(prior, ignored, hash), Measure(current, ignored, hash)) <==>
              && UsableAccount(prior, ignored) && UsableAccount(current, ignored)
              && prior.registry == current.registry
              && SameDirectory(prior.userCache, current.userCache, {})
              && SameDirectory(prior.sharedState, current.sharedState, ignored)
  {
    hide StateOf, SameDirectory, DirPreserved, UsableDir;
    UsableDirIff(before, hash, {}, prior.userCache);
    UsableDirIff(before, hash, ignored, prior.sharedState);
    UsableDirIff(before, hash, {}, current.userCache);
    UsableDirIff(before, hash, ignored, current.sharedState);
    DirectoryPreservedIff(before, hash, {}, prior.userCache, current.userCache);
    DirectoryPreservedIff(before, hash, ignored, prior.sharedState, current.sharedState);
  }

  /** The first read error hides what follows it: a file behind it may change, and
      even one before it with its size kept, on the strength of the registry and
      the other directory alone. */
  lemma UnreadableChangePasses(hash: seq<Byte> -> Digest, ignored: set<Path>, h: Digest, cache: Directory,
                               p: Path, q: Path, x: seq<Byte>, y: seq<Byte>)
    requires UsableDir(StateOf(cache, {}, hash)) && |x| == |y| && p !in ignored && q !in ignored
    ensures Preserved(Measure(Account(Some(h), cache, Some([Regular(File(p, x)), Unreadable(q)])), ignored, hash),
                      Measure(Account(Some(h), cache, Some([Regular(File(p, y)), Unreadable(q)])), ignored, hash))
  {
    OneFileThenError(ignored, p, q, x);
    OneFileThenError(ignored, p, q, y);
  }

  lemma OneFileThenError(ignored: set<Path>, p: Path, q: Path, x: seq<Byte>)
    requires p !in ignored && q !in ignored
    ensures var items := [Regular(File(p, x)), Unreadable(q)];
            !Readable(items, ignored) && |Counted(items, ignored)| == 1 && Bytes(Counted(items, ignored)) == |x|
  {
    var items := [Regular(File(p, x)), Unreadable(q)];
    assert Reach(items, ignored, 1) == 1;
    assert Kept(items, ignored, 0) == [] && Kept(items, ignored, 1) == [File(p, x)];
    assert [File(p, x)][..0] == [];
  }
}
