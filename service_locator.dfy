/**
 * searchFolderForServices and getServiceNames: the list of service names
 * the discovery service will try to load. Folders are walked depth-first in
 * listing order; every entry whose name holds ".php" after its first
 * character names a service, and explicitly registered services follow the
 * folder results.
 *
 * The filesystem is an abstract tree: a listing is what `scandir` returns
 * for a folder (or Unlistable where it returns false), and an entry is a
 * directory exactly when `is_dir` holds for its path.
 */
module ServiceLocator {
  import opened Optional
  import opened PhpStrings

  /** One name in a folder listing; a directory carries its own listing. */
  datatype Entry = File(name: string) | Dir(name: string, content: Listing)

  /** What `scandir` gives for a folder: its entries in order, or false. */
  datatype Listing = Unlistable | Listed(entries: seq<Entry>)

  /** The service folders by path; a path not in the map cannot be listed. */
  type FileSystem = map<string, Listing>

  /** Where ServiceRouter finds an explicitly registered class. */
  datatype ClassFindInfo = ClassFindInfo(absolutePath: string, className: string)

  /** One entry of `$serviceNames2ClassFindInfo`, in the array's order. */
  datatype Registration = Registration(serviceName: string, info: ClassFindInfo)

  const PhpSuffix: string := ".php"

  /** `strpos($fileName, ".php")` is truthy: the first ".php" exists and is not at 0. */
  predicate IsServiceFileName(name: string) {
    var at := StrPos(name, PhpSuffix);
    at.Some? && at.value > 0
  }

  /** The name without its last four characters, whatever they are. */
  function ServiceName(name: string): (r: string)
    requires IsServiceFileName(name)
    ensures |r| + 4 == |name| && r <= name
  {
    name[..|name| - 4]
  }

  /** The listing `scandir($rootPath)` gives for a root folder. */
  function RootListing(fs: FileSystem, rootPath: string): Listing {
    if rootPath in fs then fs[rootPath] else Unlistable
  }

  // ---------------------------------------------------------------------
  // The walk, as functions
  // ---------------------------------------------------------------------

  /** What one entry of a folder listed under `subFolder` contributes. */
  function EntryServices(e: Entry, subFolder: string): seq<string>
    decreases e
  {
    if IsServiceFileName(e.name) then [subFolder + ServiceName(e.name)]
    else if !StartsWithDot(e.name) && e.Dir? then ListingServices(e.content, subFolder + e.name + "/")
    else []
  }

  /** What a run of entries contributes, in listing order. */
  function EntriesServices(es: seq<Entry>, subFolder: string): seq<string>
    decreases es
  {
    if es == [] then []
    else EntriesServices(es[..|es| - 1], subFolder) + EntryServices(es[|es| - 1], subFolder)
  }

  /** What searchFolderForServices returns for a folder listed as `folder`. */
  function ListingServices(folder: Listing, subFolder: string): seq<string>
    decreases folder
  {
    match folder
    case Unlistable => []
    case Listed(es) => EntriesServices(es, subFolder)
  }

  /** The service names of every root folder in order, then every registration key. */
  function FoldersServices(fs: FileSystem, rootPaths: seq<string>): seq<string>
    decreases |rootPaths|
  {
    if rootPaths == [] then []
    else FoldersServices(fs, rootPaths[..|rootPaths| - 1]) + ListingServices(RootListing(fs, rootPaths[|rootPaths| - 1]), "")
  }

  /** The keys of `$serviceNames2ClassFindInfo`, in order. */
  function RegistrationKeys(registrations: seq<Registration>): seq<string> {
    seq(|registrations|, i requires 0 <= i < |registrations| => registrations[i].serviceName)
  }

  /** The keys of two runs of registrations, one after the other. */
  lemma RegistrationKeysConcat(a: seq<Registration>, b: seq<Registration>)
    ensures RegistrationKeys(a + b) == RegistrationKeys(a) + RegistrationKeys(b)
  {
  }

  /** A key is listed exactly when some registration carries it. */
  lemma RegistrationKeysListed(registrations: seq<Registration>, key: string)
    ensures key in RegistrationKeys(registrations) <==> exists r :: r in registrations && r.serviceName == key
  {
    var keys := RegistrationKeys(registrations);
    if key in keys {
      var i :| 0 <= i < |keys| && keys[i] == key;
      assert registrations[i] in registrations;
    }
    if exists r :: r in registrations && r.serviceName == key {
      var r :| r in registrations && r.serviceName == key;
      var i :| 0 <= i < |registrations| && registrations[i] == r;
      assert keys[i] == key;
    }
  }

  /** What getServiceNames returns. */
  function ServiceNames(fs: FileSystem, rootPaths: seq<string>, registrations: seq<Registration>): seq<string> {
    FoldersServices(fs, rootPaths) + RegistrationKeys(registrations)
  }

  // ---------------------------------------------------------------------
  // The walk, as the source performs it
  // ---------------------------------------------------------------------

  /** The recursive folder walk, appending to `$ret` entry by entry. */
  method SearchFolderForServices(folder: Listing, subFolder: string) returns (ret: seq<string>)
    ensures ret == ListingServices(folder, subFolder)
    decreases folder
  {
    ret := [];
    if folder.Listed? {
      var folderContent := folder.entries;
      var i := 0;
      while i < |folderContent|
        invariant 0 <= i <= |folderContent|
        invariant ret == EntriesServices(folderContent[..i], subFolder)
      {
        var entry := folderContent[i];
        assert folderContent[..i + 1][..i] == folderContent[..i];
        if IsServiceFileName(entry.name) {
          ret := ret + [subFolder + ServiceName(entry.name)];
        } else if !StartsWithDot(entry.name) && entry.Dir? {
          var found := SearchFolderForServices(entry.content, subFolder + entry.name + "/");
          ret := ret + found;
        }
        i := i + 1;
      }
      assert folderContent[..i] == folderContent;
    }
  }

  /** Every root folder's services in order, then the registration keys. */
  method GetServiceNames(fs: FileSystem, serviceFolderPaths: seq<string>, serviceNames2ClassFindInfo: seq<Registration>)
    returns (ret: seq<string>)
    ensures ret == ServiceNames(fs, serviceFolderPaths, serviceNames2ClassFindInfo)
  {
    ret := [];
    var i := 0;
    while i < |serviceFolderPaths|
      invariant 0 <= i <= |serviceFolderPaths|
      invariant ret == FoldersServices(fs, serviceFolderPaths[..i])
    {
      assert serviceFolderPaths[..i + 1][..i] == serviceFolderPaths[..i];
      var found := SearchFolderForServices(RootListing(fs, serviceFolderPaths[i]), "");
      ret := ret + found;
      i := i + 1;
    }
    assert serviceFolderPaths[..i] == serviceFolderPaths;
    var folders := ret;
    var j := 0;
    while j < |serviceNames2ClassFindInfo|
      invariant 0 <= j <= |serviceNames2ClassFindInfo|
      invariant ret == folders + RegistrationKeys(serviceNames2ClassFindInfo[..j])
    {
      ret := ret + [serviceNames2ClassFindInfo[j].serviceName];
      j := j + 1;
    }
    assert serviceNames2ClassFindInfo[..j] == serviceNames2ClassFindInfo;
  }

  // ---------------------------------------------------------------------
  // Properties of the walk
  // ---------------------------------------------------------------------

  /**
   * strpos's truthiness: a name names a service exactly when it holds
   * ".php" but does not start with it. A later ".php" does not help a name
   * that starts with one.
   */
  lemma ServiceFileNameIff(name: string)
    ensures IsServiceFileName(name) <==> Contains(name, PhpSuffix) && !OccursAt(name, PhpSuffix, 0)
  {
  }

  /** A name that matches strpos's test has room for the four characters cut off. */
  lemma ServiceFileNameLength(name: string)
    requires IsServiceFileName(name)
    ensures |name| >= 5
  {
    assert OccursAt(name, PhpSuffix, StrPos(name, PhpSuffix).value);
  }

  /** A matching entry yields exactly one name and is never entered, even when it is a directory. */
  lemma MatchingEntryYieldsOne(e: Entry, subFolder: string)
    requires IsServiceFileName(e.name)
    ensures EntryServices(e, subFolder) == [subFolder + e.name[..|e.name| - 4]]
  {
  }

  /** A hidden directory contributes nothing unless its own name matches. */
  lemma HiddenDirectorySkipped(name: string, content: Listing, subFolder: string)
    requires StartsWithDot(name) && !IsServiceFileName(name)
    ensures EntryServices(Dir(name, content), subFolder) == []
  {
  }

  /** An unlistable folder contributes no names. */
  lemma UnlistableGivesNothing(subFolder: string)
    ensures ListingServices(Unlistable, subFolder) == []
  {
  }

  /** Listing order is kept: two runs of entries contribute one after the other. */
  lemma {:induction false} EntriesConcat(a: seq<Entry>, b: seq<Entry>, subFolder: string)
    ensures EntriesServices(a + b, subFolder) == EntriesServices(a, subFolder) + EntriesServices(b, subFolder)
    decreases |b|
  {
    if b == [] {
      assert a + b == a;
    } else {
      var b' := b[..|b| - 1];
      assert (a + b)[..|a + b| - 1] == a + b';
      assert (a + b)[|a + b| - 1] == b[|b| - 1];
      EntriesConcat(a, b', subFolder);
    }
  }

  /** Each name with the same text put in front. */
  function Prepend(p: string, xs: seq<string>): seq<string> {
    seq(|xs|, i requires 0 <= i < |xs| => p + xs[i])
  }

  lemma PrependConcat(p: string, xs: seq<string>, ys: seq<string>)
    ensures Prepend(p, xs + ys) == Prepend(p, xs) + Prepend(p, ys)
  {
    assert Prepend(p, xs + ys) == Prepend(p, xs) + Prepend(p, ys);
  }

  /**
   * The folder prefix only ever grows at the front: walking under `p + q`
   * gives the names found under `q`, each with `p` in front.
   */
  lemma {:induction false} EntryPrefixShift(e: Entry, p: string, q: string)
    ensures EntryServices(e, p + q) == Prepend(p, EntryServices(e, q))
    decreases e
  {
    if IsServiceFileName(e.name) {
      assert (p + q) + ServiceName(e.name) == p + (q + ServiceName(e.name));
    } else if !StartsWithDot(e.name) && e.Dir? {
      assert p + q + e.name + "/" == p + (q + e.name + "/");
      ListingPrefixShift(e.content, p, q + e.name + "/");
    }
  }

  lemma {:induction false} EntriesPrefixShift(es: seq<Entry>, p: string, q: string)
    ensures EntriesServices(es, p + q) == Prepend(p, EntriesServices(es, q))
    decreases es
  {
    if es != [] {
      EntriesPrefixShift(es[..|es| - 1], p, q);
      EntryPrefixShift(es[|es| - 1], p, q);
      PrependConcat(p, EntriesServices(es[..|es| - 1], q), EntryServices(es[|es| - 1], q));
    }
  }

  lemma {:induction false} ListingPrefixShift(folder: Listing, p: string, q: string)
    ensures ListingServices(folder, p + q) == Prepend(p, ListingServices(folder, q))
    decreases folder
  {
    if folder.Listed? {
      EntriesPrefixShift(folder.entries, p, q);
    }
  }

  /** Every name found under `subFolder` starts with `subFolder`. */
  lemma UnderSubFolder(folder: Listing, subFolder: string)
    ensures forall x :: x in ListingServices(folder, subFolder) ==> subFolder <= x
  {
    assert subFolder + "" == subFolder;
    ListingPrefixShift(folder, subFolder, "");
  }

  /** The names a folder of plain files gives, read from the front. */
  function FlatServices(es: seq<Entry>, subFolder: string): seq<string>
    decreases |es|
  {
    if es == [] then []
    else
      (if IsServiceFileName(es[0].name) then [subFolder + ServiceName(es[0].name)] else [])
      + FlatServices(es[1..], subFolder)
  }

  /** In a folder without directories, the names are those of the matching files, in order. */
  lemma {:induction false} FlatFolder(es: seq<Entry>, subFolder: string)
    requires forall i :: 0 <= i < |es| ==> es[i].File?
    ensures ListingServices(Listed(es), subFolder) == FlatServices(es, subFolder)
    decreases |es|
  {
    if es != [] {
      var tail := es[1..];
      assert forall i :: 0 <= i < |tail| ==> tail[i].File? by {
        forall i | 0 <= i < |tail| ensures tail[i].File? { assert tail[i] == es[i + 1]; }
      }
      FlatFolder(tail, subFolder);
      assert es == [es[0]] + tail;
      EntriesConcat([es[0]], tail, subFolder);
      assert [es[0]][..0] == [];
      var head := if IsServiceFileName(es[0].name) then [subFolder + ServiceName(es[0].name)] else [];
      assert EntriesServices([es[0]], subFolder) == EntryServices(es[0], subFolder) == head;
    }
  }

  // ---------------------------------------------------------------------
  // Properties of getServiceNames
  // ---------------------------------------------------------------------

  /** Root folders contribute one after the other, in order. */
  lemma {:induction false} FoldersConcat(fs: FileSystem, a: seq<string>, b: seq<string>)
    ensures FoldersServices(fs, a + b) == FoldersServices(fs, a) + FoldersServices(fs, b)
    decreases |b|
  {
    if b == [] {
      assert a + b == a;
    } else {
      var b' := b[..|b| - 1];
      assert (a + b)[..|a + b| - 1] == a + b';
      assert (a + b)[|a + b| - 1] == b[|b| - 1];
      FoldersConcat(fs, a, b');
    }
  }

  /** A root folder that cannot be listed leaves the result as if it were not configured. */
  lemma MissingFolderContributesNothing(fs: FileSystem, before: seq<string>, rootPath: string, after: seq<string>)
    requires rootPath !in fs
    ensures FoldersServices(fs, before + [rootPath] + after) == FoldersServices(fs, before + after)
  {
    FoldersConcat(fs, before + [rootPath], after);
    FoldersConcat(fs, before, [rootPath]);
    FoldersConcat(fs, before, after);
    assert [rootPath][..0] == [];
  }

  /**
   * The folder names come first and the registration keys last, each key
   * once per registration: no name is dropped as a duplicate.
   */
  lemma ServiceNamesLayout(fs: FileSystem, rootPaths: seq<string>, registrations: seq<Registration>)
    ensures |ServiceNames(fs, rootPaths, registrations)| == |FoldersServices(fs, rootPaths)| + |registrations|
    ensures ServiceNames(fs, rootPaths, registrations)[..|FoldersServices(fs, rootPaths)|] == FoldersServices(fs, rootPaths)
    ensures forall i :: 0 <= i < |registrations| ==>
      ServiceNames(fs, rootPaths, registrations)[|FoldersServices(fs, rootPaths)| + i] == registrations[i].serviceName
  {
  }

  /** The number of folder names is the sum over the root folders. */
  lemma {:induction false} FoldersCount(fs: FileSystem, rootPaths: seq<string>, p: string)
    ensures |FoldersServices(fs, rootPaths + [p])| == |FoldersServices(fs, rootPaths)| + |ListingServices(RootListing(fs, p), "")|
  {
    assert (rootPaths + [p])[..|rootPaths|] == rootPaths;
  }

  // ---------------------------------------------------------------------
  // A worked folder
  // ---------------------------------------------------------------------

  /** ".php" cannot start where the name has no dot. */
  lemma NoSuffixAt(s: string, j: nat)
    requires j <= |s| && (j == |s| || s[j] != '.')
    ensures !OccursAt(s, PhpSuffix, j)
  {
    if j + 4 <= |s| {
      assert s[j..j + 4][0] == s[j];
    }
  }

  /** A dot-free base name with ".php" added names the service `base`. */
  lemma PlainServiceFile(base: string)
    requires |base| > 0 && '.' !in base
    ensures IsServiceFileName(base + PhpSuffix) && ServiceName(base + PhpSuffix) == base
  {
    var s := base + PhpSuffix;
    assert s[|base|..|base| + 4] == PhpSuffix;
    assert OccursAt(s, PhpSuffix, |base|);
    forall j | 0 <= j < |base| ensures !OccursAt(s, PhpSuffix, j) {
      assert s[j] == base[j];
      NoSuffixAt(s, j);
    }
    assert s[..|s| - 4] == base;
  }

  /** A name without a dot never names a service. */
  lemma DotFreeIsNoService(name: string)
    requires '.' !in name
    ensures !IsServiceFileName(name)
  {
    forall j | 0 <= j <= |name| ensures !OccursAt(name, PhpSuffix, j) {
      NoSuffixAt(name, j);
    }
  }

  /** A hidden name with no other dot never names a service. */
  lemma HiddenDotFreeIsNoService(h: string)
    requires '.' !in h
    ensures !IsServiceFileName("." + h)
  {
    var s := "." + h;
    forall j | 1 <= j <= |s| ensures !OccursAt(s, PhpSuffix, j) {
      if j < |s| { assert s[j] == h[j - 1]; }
      NoSuffixAt(s, j);
    }
  }

  /** A one-entry run contributes what its entry does. */
  lemma SingleEntry(e: Entry, sub: string)
    ensures EntriesServices([e], sub) == EntryServices(e, sub)
  {
    assert [e][..0] == [];
  }

  /** Four entries contribute one after the other. */
  lemma FourEntries(e0: Entry, e1: Entry, e2: Entry, e3: Entry, sub: string)
    ensures EntriesServices([e0, e1, e2, e3], sub)
      == EntryServices(e0, sub) + EntryServices(e1, sub) + EntryServices(e2, sub) + EntryServices(e3, sub)
  {
    SingleEntry(e0, sub);
    SingleEntry(e1, sub);
    SingleEntry(e2, sub);
    SingleEntry(e3, sub);
    EntriesConcat([e0], [e1], sub);
    EntriesConcat([e0, e1], [e2], sub);
    EntriesConcat([e0, e1, e2], [e3], sub);
    assert [e0] + [e1] == [e0, e1];
    assert [e0, e1] + [e2] == [e0, e1, e2];
    assert [e0, e1, e2] + [e3] == [e0, e1, e2, e3];
  }

  /** A file `base.php` contributes the name `base` under the current prefix. */
  lemma ServiceFileEntry(a: string, sub: string)
    requires |a| > 0 && '.' !in a
    ensures EntryServices(File(a + PhpSuffix), sub) == [sub + a]
  {
    PlainServiceFile(a);
  }

  /** A visible folder holding one service file contributes `folder/base`. */
  lemma OneFileFolder(d: string, b: string)
    requires |b| > 0 && '.' !in b && '.' !in d
    ensures EntryServices(Dir(d, Listed([File(b + PhpSuffix)])), "") == [d + "/" + b]
  {
    DotFreeIsNoService(d);
    ServiceFileEntry(b, d + "/");
    assert "" + d + "/" == d + "/";
    SingleEntry(File(b + PhpSuffix), d + "/");
  }

  /**
   * A folder holding `a.php`, a folder `d` holding `b.php`, a hidden folder
   * holding `c.php` and a file without ".php" gives `a` and then `d/b`.
   */
  lemma WalkExample(a: string, d: string, b: string, h: string, c: string, r: string)
    requires |a| > 0 && |b| > 0 && |c| > 0
    requires '.' !in a && '.' !in b && '.' !in c && '.' !in d && '.' !in h && '.' !in r
    ensures ListingServices(Listed([
        File(a + PhpSuffix),
        Dir(d, Listed([File(b + PhpSuffix)])),
        Dir("." + h, Listed([File(c + PhpSuffix)])),
        File(r)]), "")
      == [a, d + "/" + b]
  {
    FourEntries(File(a + PhpSuffix), Dir(d, Listed([File(b + PhpSuffix)])), Dir("." + h, Listed([File(c + PhpSuffix)])), File(r), "");
    ServiceFileEntry(a, "");
    assert "" + a == a;
    OneFileFolder(d, b);
    HiddenDotFreeIsNoService(h);
    DotFreeIsNoService(r);
  }
}
