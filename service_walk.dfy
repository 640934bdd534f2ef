/**
 * The walk of searchFolderForServices over a whole tree, stated without
 * its recursion: a location is the list of indices that leads from a
 * listing, through directories, to one entry. The walk reports exactly the
 * locations whose entry names a service and whose directories on the way
 * it enters (visible, and not themselves service names), each once, and
 * names each by its slash-joined path without the last four characters.
 */
module ServiceWalk {
  import opened PhpStrings
  import opened ServiceLocator

  /** The walk reaches and reports the entry that `loc` leads to. */
  predicate Walked(l: Listing, loc: seq<int>)
    decreases l
  {
    l.Listed? && |loc| > 0 && 0 <= loc[0] < |l.entries| &&
    var e := l.entries[loc[0]];
    if |loc| == 1 then IsServiceFileName(e.name)
    else !IsServiceFileName(e.name) && !StartsWithDot(e.name) && e.Dir? && Walked(e.content, loc[1..])
  }

  /** The names along `loc`, joined by '/': the path of its entry relative to the listing. */
  function PathAt(l: Listing, loc: seq<int>): string
    decreases l
  {
    if l.Unlistable? || |loc| == 0 || !(0 <= loc[0] < |l.entries|) then ""
    else
      var e := l.entries[loc[0]];
      if |loc| == 1 || !e.Dir? then e.name else e.name + "/" + PathAt(e.content, loc[1..])
  }

  /** The name reported for `loc` under `subFolder`: the full path without its last four characters. */
  function NameAt(l: Listing, loc: seq<int>, subFolder: string): string {
    var p := subFolder + PathAt(l, loc);
    if |p| >= 4 then p[..|p| - 4] else ""
  }

  /** No location occurs twice. */
  predicate Distinct(locs: seq<seq<int>>) {
    forall j, k :: 0 <= j < k < |locs| ==> locs[j] != locs[k]
  }

  /** Each location with the index `i` in front. */
  function Under(i: int, locs: seq<seq<int>>): seq<seq<int>> {
    seq(|locs|, k requires 0 <= k < |locs| => [i] + locs[k])
  }

  // ---------------------------------------------------------------------
  // The locations in the order the walk reports them
  // ---------------------------------------------------------------------

  function EntryLocs(e: Entry, i: int): seq<seq<int>>
    decreases e
  {
    if IsServiceFileName(e.name) then [[i]]
    else if !StartsWithDot(e.name) && e.Dir? then Under(i, ListingLocs(e.content))
    else []
  }

  function EntriesLocs(es: seq<Entry>): seq<seq<int>>
    decreases es
  {
    if es == [] then []
    else EntriesLocs(es[..|es| - 1]) + EntryLocs(es[|es| - 1], |es| - 1)
  }

  function ListingLocs(l: Listing): seq<seq<int>>
    decreases l
  {
    match l
    case Unlistable => []
    case Listed(es) => EntriesLocs(es)
  }

  // ---------------------------------------------------------------------
  // One-level facts
  // ---------------------------------------------------------------------

  lemma UnderMembership(i: int, locs: seq<seq<int>>, loc: seq<int>)
    ensures loc in Under(i, locs) <==> |loc| > 0 && loc[0] == i && loc[1..] in locs
  {
    var u := Under(i, locs);
    if loc in u {
      var k :| 0 <= k < |u| && u[k] == loc;
      assert loc[1..] == locs[k];
    }
    if |loc| > 0 && loc[0] == i && loc[1..] in locs {
      var k :| 0 <= k < |locs| && locs[k] == loc[1..];
      assert u[k] == loc;
    }
  }

  lemma UnderDistinct(i: int, locs: seq<seq<int>>)
    requires Distinct(locs)
    ensures Distinct(Under(i, locs))
  {
    var u := Under(i, locs);
    forall j, k | 0 <= j < k < |u| ensures u[j] != u[k] {
      assert u[j][1..] == locs[j] && u[k][1..] == locs[k];
    }
  }

  /** Locations inside the first entries of a listing read the same in any longer listing. */
  lemma WalkedPrefix(init: seq<Entry>, es: seq<Entry>, loc: seq<int>, subFolder: string)
    requires |init| <= |es| && init == es[..|init|]
    requires |loc| > 0 && 0 <= loc[0] < |init|
    ensures Walked(Listed(init), loc) == Walked(Listed(es), loc)
    ensures NameAt(Listed(init), loc, subFolder) == NameAt(Listed(es), loc, subFolder)
  {
    assert init[loc[0]] == es[loc[0]];
  }

  /** A service file's location names the file without its suffix. */
  lemma NameAtFile(es: seq<Entry>, i: int, subFolder: string)
    requires 0 <= i < |es| && IsServiceFileName(es[i].name)
    ensures NameAt(Listed(es), [i], subFolder) == subFolder + ServiceName(es[i].name)
  {
    var name := es[i].name;
    ServiceFileNameLength(name);
    assert PathAt(Listed(es), [i]) == name;
    var p := subFolder + name;
    assert p[..|p| - 4] == subFolder + name[..|name| - 4];
  }

  /** A location inside a directory is named under the directory's folder prefix. */
  lemma NameAtDir(es: seq<Entry>, i: int, rest: seq<int>, subFolder: string)
    requires 0 <= i < |es| && es[i].Dir? && |rest| > 0
    ensures NameAt(Listed(es), [i] + rest, subFolder) == NameAt(es[i].content, rest, subFolder + es[i].name + "/")
  {
    var e := es[i];
    var loc := [i] + rest;
    assert loc[0] == i && loc[1..] == rest;
    var inner := PathAt(e.content, rest);
    assert PathAt(Listed(es), loc) == e.name + "/" + inner;
    assert subFolder + (e.name + "/" + inner) == (subFolder + e.name + "/") + inner;
  }

  // ---------------------------------------------------------------------
  // The walk reports every reached service file once, by its path
  // ---------------------------------------------------------------------

  lemma {:induction false} EntryWalk(es: seq<Entry>, i: int, subFolder: string)
    requires 0 <= i < |es|
    ensures |EntryServices(es[i], subFolder)| == |EntryLocs(es[i], i)|
    ensures forall k :: 0 <= k < |EntryLocs(es[i], i)| ==>
      EntryServices(es[i], subFolder)[k] == NameAt(Listed(es), EntryLocs(es[i], i)[k], subFolder)
    ensures forall loc :: loc in EntryLocs(es[i], i) <==> |loc| > 0 && loc[0] == i && Walked(Listed(es), loc)
    ensures Distinct(EntryLocs(es[i], i))
    decreases es[i]
  {
    var e := es[i];
    if IsServiceFileName(e.name) {
      NameAtFile(es, i, subFolder);
      forall loc ensures loc in EntryLocs(e, i) <==> |loc| > 0 && loc[0] == i && Walked(Listed(es), loc) {
        if |loc| == 1 && loc[0] == i {
          assert loc == [i];
        }
      }
    } else if !StartsWithDot(e.name) && e.Dir? {
      var inner := subFolder + e.name + "/";
      ListingWalk(e.content, inner);
      var lc := ListingLocs(e.content);
      var u := Under(i, lc);
      assert EntryLocs(e, i) == u;
      assert EntryServices(e, subFolder) == ListingServices(e.content, inner);
      forall k | 0 <= k < |u| ensures ListingServices(e.content, inner)[k] == NameAt(Listed(es), u[k], subFolder) {
        assert lc[k] in lc;
        NameAtDir(es, i, lc[k], subFolder);
      }
      forall loc ensures loc in u <==> |loc| > 0 && loc[0] == i && Walked(Listed(es), loc) {
        UnderMembership(i, lc, loc);
      }
      UnderDistinct(i, lc);
    }
  }

  lemma {:induction false} EntriesWalk(es: seq<Entry>, subFolder: string)
    ensures |EntriesServices(es, subFolder)| == |EntriesLocs(es)|
    ensures forall k :: 0 <= k < |EntriesLocs(es)| ==>
      EntriesServices(es, subFolder)[k] == NameAt(Listed(es), EntriesLocs(es)[k], subFolder)
    ensures forall loc :: loc in EntriesLocs(es) <==> Walked(Listed(es), loc)
    ensures Distinct(EntriesLocs(es))
    decreases es
  {
    if es != [] {
      var n := |es| - 1;
      var init := es[..n];
      EntriesWalk(init, subFolder);
      EntryWalk(es, n, subFolder);
      EntriesAppend(init, es, subFolder);
    }
  }

  /** Joining the first entries' results with the last entry's, one level up. */
  lemma EntriesAppend(init: seq<Entry>, es: seq<Entry>, subFolder: string)
    requires |es| > 0 && init == es[..|es| - 1]
    requires |EntriesServices(init, subFolder)| == |EntriesLocs(init)|
    requires forall k :: 0 <= k < |EntriesLocs(init)| ==>
      EntriesServices(init, subFolder)[k] == NameAt(Listed(init), EntriesLocs(init)[k], subFolder)
    requires forall loc :: loc in EntriesLocs(init) <==> Walked(Listed(init), loc)
    requires Distinct(EntriesLocs(init))
    requires LastEntryWalked(es, subFolder)
    ensures |EntriesServices(es, subFolder)| == |EntriesLocs(es)|
    ensures forall k :: 0 <= k < |EntriesLocs(es)| ==>
      EntriesServices(es, subFolder)[k] == NameAt(Listed(es), EntriesLocs(es)[k], subFolder)
    ensures forall loc :: loc in EntriesLocs(es) <==> Walked(Listed(es), loc)
    ensures Distinct(EntriesLocs(es))
  {
    var n := |es| - 1;
    var li, le := EntriesLocs(init), EntryLocs(es[n], n);
    var si, se := EntriesServices(init, subFolder), EntryServices(es[n], subFolder);
    assert EntriesLocs(es) == li + le;
    assert EntriesServices(es, subFolder) == si + se;
    forall k | 0 <= k < |li| ensures si[k] == NameAt(Listed(es), li[k], subFolder) {
      assert li[k] in li;
      WalkedPrefix(init, es, li[k], subFolder);
    }
    forall loc ensures loc in li + le <==> Walked(Listed(es), loc) {
      if |loc| > 0 && 0 <= loc[0] < n {
        WalkedPrefix(init, es, loc, subFolder);
      }
    }
    forall j, k | 0 <= j < k < |li + le| ensures (li + le)[j] != (li + le)[k] {
      if j < |li| && k >= |li| {
        assert li[j] in li && le[k - |li|] in le;
      }
    }
  }

  /** What EntryWalk states of the last entry of a non-empty listing. */
  ghost predicate LastEntryWalked(es: seq<Entry>, subFolder: string)
    requires |es| > 0
  {
    var n := |es| - 1;
    var locs, names := EntryLocs(es[n], n), EntryServices(es[n], subFolder);
    && |names| == |locs|
    && (forall k :: 0 <= k < |locs| ==> names[k] == NameAt(Listed(es), locs[k], subFolder))
    && (forall loc :: loc in locs <==> |loc| > 0 && loc[0] == n && Walked(Listed(es), loc))
    && Distinct(locs)
  }

  lemma {:induction false} ListingWalk(l: Listing, subFolder: string)
    ensures |ListingServices(l, subFolder)| == |ListingLocs(l)|
    ensures forall k :: 0 <= k < |ListingLocs(l)| ==>
      ListingServices(l, subFolder)[k] == NameAt(l, ListingLocs(l)[k], subFolder)
    ensures forall loc :: loc in ListingLocs(l) <==> Walked(l, loc)
    ensures Distinct(ListingLocs(l))
    decreases l
  {
    if l.Listed? {
      EntriesWalk(l.entries, subFolder);
    }
  }

  /**
   * searchFolderForServices over a whole tree: a name is reported exactly
   * when some reached service file has it as its path without the suffix,
   * and the number of names is the number of reached service files.
   */
  lemma ServicesOfTree(l: Listing, subFolder: string)
    ensures forall x :: x in ListingServices(l, subFolder) <==>
      exists loc :: Walked(l, loc) && x == NameAt(l, loc, subFolder)
    ensures |ListingServices(l, subFolder)| == |ListingLocs(l)|
    ensures Distinct(ListingLocs(l)) && forall loc :: loc in ListingLocs(l) <==> Walked(l, loc)
  {
    ListingWalk(l, subFolder);
    var names, locs := ListingServices(l, subFolder), ListingLocs(l);
    forall x | x in names ensures exists loc :: Walked(l, loc) && x == NameAt(l, loc, subFolder) {
      var k :| 0 <= k < |names| && names[k] == x;
      assert locs[k] in locs;
    }
    forall x | exists loc :: Walked(l, loc) && x == NameAt(l, loc, subFolder) ensures x in names {
      var loc :| Walked(l, loc) && x == NameAt(l, loc, subFolder);
      var k :| 0 <= k < |locs| && locs[k] == loc;
      assert names[k] == x;
    }
  }
}
