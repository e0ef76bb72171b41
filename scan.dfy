/** `scan_and_replace` of `replace_json_content.py`: walk the tree below ".",
    skip `.git` directories, run the substitution table over every `.json`
    file that can be read, write back the files whose text changed, and report
    whether any file was changed; and the `DETECT_CHANGE=` line the script
    prints from that report.

    The file system is a value: a directory is the sequence of its entries,
    and each file carries the outcome of reading it and whether writing it
    would succeed. The files written are returned instead of being written.
 */
module Scan {
  import opened StrReplace
  import opened Rules

  /** Outcome of opening and reading a file as UTF-8 text. */
  datatype ReadResult = Read(content: string) | ReadFailed

  /** One entry of a directory. `writeOk` says whether rewriting the file
      would succeed. */
  datatype Entry =
    | File(name: string, read: ReadResult, writeOk: bool)
    | Dir(name: string, entries: seq<Entry>)

  /** A path below the top directory ".", one name per component. */
  type Path = seq<string>

  /** A directory the walk has still to list, with its path. */
  datatype Pending = Pending(path: Path, entries: seq<Entry>)

  /** A file the walk reports: its directory, its name and what it holds. */
  datatype Visit = Visit(dir: Path, name: string, read: ReadResult, writeOk: bool)

  /** A rewrite of the file at `path` with `text`; `ok` says it succeeded. */
  datatype Write = Write(path: Path, text: string, ok: bool)

  const GitDir: string := ".git"
  const JsonSuffix: string := ".json"

  /** Python's `s.endswith(suffix)`. */
  predicate EndsWith(s: string, suffix: string)
  {
    |suffix| <= |s| && s[|s| - |suffix|..] == suffix
  }

  // ---------------------------------------------------------------------
  // Sizes, for termination of the walk

  function EntrySize(e: Entry): nat
  {
    match e
    case File(_, _, _) => 1
    case Dir(_, c) => 1 + SizeOf(c)
  }

  function SizeOf(es: seq<Entry>): nat
  {
    if es == [] then 0 else EntrySize(es[0]) + SizeOf(es[1..])
  }

  function PendingSize(ps: seq<Pending>): nat
  {
    if ps == [] then 0 else 1 + SizeOf(ps[0].entries) + PendingSize(ps[1..])
  }

  // ---------------------------------------------------------------------
  // One step of os.walk: split a directory into `files` and `dirs`

  /** The `files` list of a directory: its file entries, in order. */
  function FilesOf(dir: Path, es: seq<Entry>): seq<Visit>
  {
    if es == [] then []
    else
      (match es[0]
       case File(n, r, ok) => [Visit(dir, n, r, ok)]
       case Dir(_, _) => [])
      + FilesOf(dir, es[1..])
  }

  /** The `dirs` list of a directory: its sub-directories, in order. */
  function DirsOf(es: seq<Entry>): seq<Entry>
  {
    if es == [] then []
    else (if es[0].Dir? then [es[0]] else []) + DirsOf(es[1..])
  }

  /** Python's `name in dirs`. */
  predicate HasDir(ds: seq<Entry>, name: string)
  {
    exists i | 0 <= i < |ds| :: ds[i].name == name
  }

  /** Python's `dirs.remove(name)`: drop the first entry called `name`. */
  function RemoveFirst(ds: seq<Entry>, name: string): seq<Entry>
  {
    if ds == [] then []
    else if ds[0].name == name then ds[1..]
    else [ds[0]] + RemoveFirst(ds[1..], name)
  }

  /** The `dirs` list after `if ".git" in dirs: dirs.remove(".git")`. */
  function Pruned(ds: seq<Entry>): seq<Entry>
  {
    if HasDir(ds, GitDir) then RemoveFirst(ds, GitDir) else ds
  }

  /** The directories the walk descends into from `dir`, in order. */
  function Below(dir: Path, ds: seq<Entry>): seq<Pending>
  {
    if ds == [] then []
    else
      (match ds[0]
       case Dir(n, c) => [Pending(dir + [n], c)]
       case File(_, _, _) => [])
      + Below(dir, ds[1..])
  }

  function Subdirs(p: Pending): seq<Pending>
  {
    Below(p.path, Pruned(DirsOf(p.entries)))
  }

  lemma {:induction false} DirsOfSize(es: seq<Entry>)
    ensures SizeOf(DirsOf(es)) <= SizeOf(es)
  {
    if es != [] {
      DirsOfSize(es[1..]);
      if es[0].Dir? {
        SizeOfCons(es[0], DirsOf(es[1..]));
      } else {
        assert DirsOf(es) == DirsOf(es[1..]);
      }
    }
  }

  lemma SizeOfCons(e: Entry, es: seq<Entry>)
    ensures SizeOf([e] + es) == EntrySize(e) + SizeOf(es)
  {
  }

  lemma {:induction false} RemoveFirstSize(ds: seq<Entry>, name: string)
    ensures SizeOf(RemoveFirst(ds, name)) <= SizeOf(ds)
  {
    if ds != [] && ds[0].name != name {
      RemoveFirstSize(ds[1..], name);
      SizeOfCons(ds[0], RemoveFirst(ds[1..], name));
    }
  }

  lemma PendingSizeCons(p: Pending, ps: seq<Pending>)
    ensures PendingSize([p] + ps) == 1 + SizeOf(p.entries) + PendingSize(ps)
  {
  }

  lemma {:induction false} PendingSizeAppend(ps: seq<Pending>, qs: seq<Pending>)
    ensures PendingSize(ps + qs) == PendingSize(ps) + PendingSize(qs)
  {
    if ps == [] {
      assert ps + qs == qs;
    } else {
      assert (ps + qs)[1..] == ps[1..] + qs;
      PendingSizeAppend(ps[1..], qs);
    }
  }

  lemma {:induction false} BelowSize(dir: Path, ds: seq<Entry>)
    ensures PendingSize(Below(dir, ds)) <= SizeOf(ds)
  {
    if ds != [] {
      BelowSize(dir, ds[1..]);
      match ds[0]
      case Dir(n, c) =>
        PendingSizeCons(Pending(dir + [n], c), Below(dir, ds[1..]));
      case File(_, _, _) =>
        assert Below(dir, ds) == Below(dir, ds[1..]);
    }
  }

  /** The directories still to walk below `p` are smaller than `p`. */
  lemma SubdirsSmaller(p: Pending)
    ensures PendingSize(Subdirs(p)) <= SizeOf(p.entries)
  {
    DirsOfSize(p.entries);
    RemoveFirstSize(DirsOf(p.entries), GitDir);
    BelowSize(p.path, Pruned(DirsOf(p.entries)));
  }

  // ---------------------------------------------------------------------
  // The walk, top-down as os.walk does it

  /** The files os.walk reports from `p` down: the files of `p` itself, then
      the walk of each sub-directory left after pruning, in order. */
  function Walk(p: Pending): seq<Visit>
    decreases SizeOf(p.entries), 1
  {
    SubdirsSmaller(p);
    FilesOf(p.path, p.entries) + WalkAll(Subdirs(p))
  }

  function WalkAll(ps: seq<Pending>): seq<Visit>
    decreases PendingSize(ps), 0
  {
    if ps == [] then [] else Walk(ps[0]) + WalkAll(ps[1..])
  }

  lemma {:induction false} WalkAllAppend(ps: seq<Pending>, qs: seq<Pending>)
    ensures WalkAll(ps + qs) == WalkAll(ps) + WalkAll(qs)
    decreases |ps|
  {
    if ps == [] {
      assert ps + qs == qs;
    } else {
      assert (ps + qs)[1..] == ps[1..] + qs;
      WalkAllAppend(ps[1..], qs);
    }
  }

  // ---------------------------------------------------------------------
  // Reference: the files outside every `.git` directory

  /** The files below `dir` that lie in no directory called `.git`. */
  function Visible(dir: Path, es: seq<Entry>): set<Visit>
    decreases es
  {
    if es == [] then {} else EntryVisible(dir, es[0]) + Visible(dir, es[1..])
  }

  function EntryVisible(dir: Path, e: Entry): set<Visit>
    decreases e
  {
    match e
    case File(n, r, ok) => {Visit(dir, n, r, ok)}
    case Dir(n, c) => if n == GitDir then {} else Visible(dir + [n], c)
  }

  /** A file is in the reference set of a listing exactly when it is in the
      set of one of the listing's entries. */
  lemma {:induction false} VisibleMembers(dir: Path, es: seq<Entry>, v: Visit)
    ensures v in Visible(dir, es) <==> exists i | 0 <= i < |es| :: v in EntryVisible(dir, es[i])
    decreases es
  {
    if es != [] {
      VisibleMembers(dir, es[1..], v);
      if v in Visible(dir, es[1..]) {
        var i :| 0 <= i < |es[1..]| && v in EntryVisible(dir, es[1..][i]);
        assert es[1..][i] == es[i + 1];
      }
      if exists i | 1 <= i < |es| :: v in EntryVisible(dir, es[i]) {
        var i :| 1 <= i < |es| && v in EntryVisible(dir, es[i]);
        assert es[1..][i - 1] == es[i];
      }
    }
  }

  /** The order in which a directory lists its entries does not change the
      reference set. */
  lemma ListingOrderIrrelevant(dir: Path, es: seq<Entry>, es': seq<Entry>)
    requires multiset(es) == multiset(es')
    ensures Visible(dir, es) == Visible(dir, es')
  {
    forall v | v in Visible(dir, es)
      ensures v in Visible(dir, es')
    {
      VisibleMembers(dir, es, v);
      VisibleMembers(dir, es', v);
      var i :| 0 <= i < |es| && v in EntryVisible(dir, es[i]);
      assert es[i] in multiset(es');
      var j :| 0 <= j < |es'| && es'[j] == es[i];
    }
    forall v | v in Visible(dir, es')
      ensures v in Visible(dir, es)
    {
      VisibleMembers(dir, es, v);
      VisibleMembers(dir, es', v);
      var j :| 0 <= j < |es'| && v in EntryVisible(dir, es'[j]);
      assert es'[j] in multiset(es);
      var i :| 0 <= i < |es| && es[i] == es'[j];
    }
  }

  /** Names are unique within each directory, at every level. */
  predicate WellFormed(es: seq<Entry>)
  {
    (forall i, j :: 0 <= i < j < |es| ==> es[i].name != es[j].name) &&
    (forall i :: 0 <= i < |es| && es[i].Dir? ==> WellFormed(es[i].entries))
  }

  /** The sub-directories of a directory not called `.git`, in order. */
  function NonGitDirs(es: seq<Entry>): seq<Entry>
  {
    if es == [] then []
    else (if es[0].Dir? && es[0].name != GitDir then [es[0]] else []) + NonGitDirs(es[1..])
  }

  function DirsVisible(dir: Path, ds: seq<Entry>): set<Visit>
  {
    if ds == [] then {}
    else
      (match ds[0]
       case Dir(n, c) => Visible(dir + [n], c)
       case File(_, _, _) => {})
      + DirsVisible(dir, ds[1..])
  }

  /** Every file found by the reference lies outside `.git`. */
  lemma {:induction false} VisibleOutsideGit(dir: Path, es: seq<Entry>)
    requires GitDir !in dir
    ensures forall v :: v in Visible(dir, es) ==> GitDir !in v.dir
    decreases es
  {
    if es != [] {
      VisibleOutsideGit(dir, es[1..]);
      match es[0]
      case File(_, _, _) =>
      case Dir(n, c) =>
        if n != GitDir {
          VisibleOutsideGit(dir + [n], c);
        }
    }
  }

  lemma DirsVisibleCons(dir: Path, d: Entry, ds: seq<Entry>)
    requires d.Dir?
    ensures DirsVisible(dir, [d] + ds) == Visible(dir + [d.name], d.entries) + DirsVisible(dir, ds)
  {
  }

  /** One level of the reference: the files of `es` itself, and the files
      below each of its sub-directories not called `.git`. */
  lemma {:induction false} VisibleSplit(dir: Path, es: seq<Entry>)
    ensures forall v :: v in Visible(dir, es) <==> v in FilesOf(dir, es) || v in DirsVisible(dir, NonGitDirs(es))
  {
    if es != [] {
      var e, rest := es[0], es[1..];
      VisibleSplit(dir, rest);
      assert Visible(dir, es) == EntryVisible(dir, e) + Visible(dir, rest);
      match e
      case File(n, r, ok) =>
        assert FilesOf(dir, es) == [Visit(dir, n, r, ok)] + FilesOf(dir, rest);
        assert NonGitDirs(es) == NonGitDirs(rest);
      case Dir(n, c) =>
        assert FilesOf(dir, es) == FilesOf(dir, rest);
        if n == GitDir {
          assert NonGitDirs(es) == NonGitDirs(rest);
        } else {
          assert NonGitDirs(es) == [e] + NonGitDirs(rest);
          DirsVisibleCons(dir, e, NonGitDirs(rest));
        }
    }
  }

  lemma {:induction false} NonGitDirsSize(es: seq<Entry>)
    ensures SizeOf(NonGitDirs(es)) <= SizeOf(es)
  {
    if es != [] {
      NonGitDirsSize(es[1..]);
      if es[0].Dir? && es[0].name != GitDir {
        SizeOfCons(es[0], NonGitDirs(es[1..]));
      } else {
        assert NonGitDirs(es) == NonGitDirs(es[1..]);
      }
    }
  }

  lemma {:induction false} NonGitDirsAreWellFormedDirs(es: seq<Entry>)
    requires forall i :: 0 <= i < |es| && es[i].Dir? ==> WellFormed(es[i].entries)
    ensures forall i :: 0 <= i < |NonGitDirs(es)| ==>
      NonGitDirs(es)[i].Dir? && WellFormed(NonGitDirs(es)[i].entries)
  {
    if es != [] {
      assert forall i :: 0 <= i < |es[1..]| && es[1..][i].Dir? ==> WellFormed(es[1..][i].entries) by {
        forall i | 0 <= i < |es[1..]| && es[1..][i].Dir?
          ensures WellFormed(es[1..][i].entries)
        {
          assert es[1..][i] == es[i + 1];
        }
      }
      NonGitDirsAreWellFormedDirs(es[1..]);
    }
  }

  /** With unique names there is at most one `.git` entry, so removing the
      first one removes them all. */
  lemma {:induction false} RemoveFirstUnique(ds: seq<Entry>)
    requires forall i, j :: 0 <= i < j < |ds| ==> ds[i].name != ds[j].name
    requires forall i :: 0 <= i < |ds| ==> ds[i].Dir?
    ensures Pruned(ds) == NonGitDirs(ds)
  {
    if ds != [] {
      RemoveFirstUnique(ds[1..]);
      if ds[0].name == GitDir {
        assert forall i :: 0 <= i < |ds[1..]| ==> ds[1..][i].name != GitDir by {
          forall i | 0 <= i < |ds[1..]| ensures ds[1..][i].name != GitDir {
            assert ds[1..][i] == ds[i + 1];
          }
        }
        NoGitIsKept(ds[1..]);
      } else if HasDir(ds, GitDir) {
        var k :| 0 <= k < |ds| && ds[k].name == GitDir;
        assert ds[1..][k - 1].name == GitDir;
      } else {
        NoGitIsKept(ds);
      }
    }
  }

  lemma {:induction false} NoGitIsKept(ds: seq<Entry>)
    requires forall i :: 0 <= i < |ds| ==> ds[i].Dir? && ds[i].name != GitDir
    ensures NonGitDirs(ds) == ds
  {
    if ds != [] {
      assert forall i :: 0 <= i < |ds[1..]| ==> ds[1..][i].Dir? && ds[1..][i].name != GitDir by {
        forall i | 0 <= i < |ds[1..]| ensures ds[1..][i].Dir? && ds[1..][i].name != GitDir {
          assert ds[1..][i] == ds[i + 1];
        }
      }
      NoGitIsKept(ds[1..]);
    }
  }

  /** The `dirs` list holds directories only, each an entry of the listing. */
  lemma {:induction false} DirsOfAreDirs(es: seq<Entry>)
    ensures forall d :: d in DirsOf(es) ==> d in es && d.Dir?
  {
    if es != [] {
      DirsOfAreDirs(es[1..]);
    }
  }

  /** A listing with unique names gives a `dirs` list with unique names. */
  lemma {:induction false} DirsOfUnique(es: seq<Entry>)
    requires forall i, j :: 0 <= i < j < |es| ==> es[i].name != es[j].name
    ensures forall i, j :: 0 <= i < j < |DirsOf(es)| ==> DirsOf(es)[i].name != DirsOf(es)[j].name
  {
    if es != [] {
      var rest := es[1..];
      assert forall i, j :: 0 <= i < j < |rest| ==> rest[i].name != rest[j].name by {
        forall i, j | 0 <= i < j < |rest| ensures rest[i].name != rest[j].name {
          assert rest[i] == es[i + 1] && rest[j] == es[j + 1];
        }
      }
      DirsOfUnique(rest);
      DirsOfAreDirs(rest);
      var ds := DirsOf(rest);
      if es[0].Dir? {
        assert DirsOf(es) == [es[0]] + ds;
        forall i, j | 0 <= i < j < |DirsOf(es)|
          ensures DirsOf(es)[i].name != DirsOf(es)[j].name
        {
          if i == 0 {
            assert DirsOf(es)[j] == ds[j - 1] && ds[j - 1] in rest;
          } else {
            assert DirsOf(es)[i] == ds[i - 1] && DirsOf(es)[j] == ds[j - 1];
          }
        }
      } else {
        assert DirsOf(es) == ds;
      }
    }
  }

  /** Dropping the files first does not change which directories survive. */
  lemma {:induction false} DirsOfNonGit(es: seq<Entry>)
    ensures NonGitDirs(DirsOf(es)) == NonGitDirs(es)
  {
    if es != [] {
      DirsOfNonGit(es[1..]);
      var ds := DirsOf(es[1..]);
      if es[0].Dir? {
        assert DirsOf(es) == [es[0]] + ds;
        assert ([es[0]] + ds)[1..] == ds;
      } else {
        assert DirsOf(es) == ds;
      }
    }
  }

  lemma WalkAllCons(p: Pending, ps: seq<Pending>)
    ensures WalkAll([p] + ps) == Walk(p) + WalkAll(ps)
  {
  }

  /** The walk of a well-formed tree reports exactly the files outside
      every `.git` directory. */
  lemma {:induction false} WalkIsVisible(p: Pending)
    requires WellFormed(p.entries)
    ensures forall v :: v in Walk(p) <==> v in Visible(p.path, p.entries)
    decreases SizeOf(p.entries), 1
  {
    var es := p.entries;
    SubdirsAreNonGit(p);
    NonGitDirsSize(es);
    NonGitDirsAreWellFormedDirs(es);
    BelowIsVisible(p.path, NonGitDirs(es));
    VisibleSplit(p.path, es);
  }

  lemma {:induction false} BelowIsVisible(dir: Path, ds: seq<Entry>)
    requires forall i :: 0 <= i < |ds| ==> ds[i].Dir? && WellFormed(ds[i].entries)
    ensures forall v :: v in WalkAll(Below(dir, ds)) <==> v in DirsVisible(dir, ds)
    decreases SizeOf(ds), 0
  {
    if ds != [] {
      var d := ds[0];
      assert ds == [d] + ds[1..];
      SizeOfCons(d, ds[1..]);
      assert forall i :: 0 <= i < |ds[1..]| ==> ds[1..][i] == ds[i + 1];
      BelowIsVisible(dir, ds[1..]);
      WalkIsVisible(Pending(dir + [d.name], d.entries));
      assert Below(dir, ds) == [Pending(dir + [d.name], d.entries)] + Below(dir, ds[1..]);
      WalkAllCons(Pending(dir + [d.name], d.entries), Below(dir, ds[1..]));
      DirsVisibleCons(dir, d, ds[1..]);
    }
  }

  // ---------------------------------------------------------------------
  // Each file is reported once

  /** `v` and `w` are the same file: same directory, same name. */
  predicate SameFile(v: Visit, w: Visit)
  {
    v.dir == w.dir && v.name == w.name
  }

  /** No file occurs twice in `vs`. */
  predicate DistinctFiles(vs: seq<Visit>)
  {
    forall i, j :: 0 <= i < j < |vs| ==> !SameFile(vs[i], vs[j])
  }

  /** `d` is `dir` or a path below it. */
  predicate Under(dir: Path, d: Path)
  {
    |dir| <= |d| && d[..|dir|] == dir
  }

  lemma DistinctAppend(a: seq<Visit>, b: seq<Visit>)
    requires DistinctFiles(a) && DistinctFiles(b)
    requires forall v, w :: v in a && w in b ==> !SameFile(v, w)
    ensures DistinctFiles(a + b)
  {
    forall i, j | 0 <= i < j < |a + b|
      ensures !SameFile((a + b)[i], (a + b)[j])
    {
      if j < |a| {
        assert (a + b)[i] == a[i] && (a + b)[j] == a[j];
      } else if i < |a| {
        assert (a + b)[i] == a[i] && (a + b)[j] == b[j - |a|];
        assert a[i] in a && b[j - |a|] in b;
      } else {
        assert (a + b)[i] == b[i - |a|] && (a + b)[j] == b[j - |a|];
      }
    }
  }

  /** The `files` list of a directory names its file entries, in that
      directory. */
  lemma {:induction false} FilesOfFacts(dir: Path, es: seq<Entry>)
    ensures forall v :: v in FilesOf(dir, es) ==>
      v.dir == dir && exists k | 0 <= k < |es| :: es[k].File? && es[k].name == v.name
  {
    if es != [] {
      FilesOfFacts(dir, es[1..]);
      forall v | v in FilesOf(dir, es[1..])
        ensures exists k | 0 <= k < |es| :: es[k].File? && es[k].name == v.name
      {
        var k :| 0 <= k < |es[1..]| && es[1..][k].File? && es[1..][k].name == v.name;
        assert es[k + 1] == es[1..][k];
      }
      match es[0]
      case File(n, r, ok) =>
        assert FilesOf(dir, es) == [Visit(dir, n, r, ok)] + FilesOf(dir, es[1..]);
      case Dir(_, _) =>
        assert FilesOf(dir, es) == FilesOf(dir, es[1..]);
    }
  }

  /** A listing with unique names reports each of its files once. */
  lemma {:induction false} FilesOfDistinct(dir: Path, es: seq<Entry>)
    requires forall i, j :: 0 <= i < j < |es| ==> es[i].name != es[j].name
    ensures DistinctFiles(FilesOf(dir, es))
  {
    if es != [] {
      var rest := es[1..];
      assert forall i, j :: 0 <= i < j < |rest| ==> rest[i].name != rest[j].name by {
        forall i, j | 0 <= i < j < |rest| ensures rest[i].name != rest[j].name {
          assert rest[i] == es[i + 1] && rest[j] == es[j + 1];
        }
      }
      FilesOfDistinct(dir, rest);
      FilesOfFacts(dir, rest);
      match es[0]
      case File(n, r, ok) =>
        var head := [Visit(dir, n, r, ok)];
        assert FilesOf(dir, es) == head + FilesOf(dir, rest);
        forall v, w | v in head && w in FilesOf(dir, rest)
          ensures !SameFile(v, w)
        {
          var k :| 0 <= k < |rest| && rest[k].File? && rest[k].name == w.name;
          assert rest[k] == es[k + 1];
        }
        DistinctAppend(head, FilesOf(dir, rest));
      case Dir(_, _) =>
        assert FilesOf(dir, es) == FilesOf(dir, rest);
    }
  }

  /** The sub-directories kept from a listing with unique names have unique
      names. */
  lemma {:induction false} NonGitDirsUnique(es: seq<Entry>)
    requires forall i, j :: 0 <= i < j < |es| ==> es[i].name != es[j].name
    ensures forall d :: d in NonGitDirs(es) ==> d in es
    ensures forall i, j :: 0 <= i < j < |NonGitDirs(es)| ==> NonGitDirs(es)[i].name != NonGitDirs(es)[j].name
  {
    if es != [] {
      var rest := es[1..];
      assert forall i, j :: 0 <= i < j < |rest| ==> rest[i].name != rest[j].name by {
        forall i, j | 0 <= i < j < |rest| ensures rest[i].name != rest[j].name {
          assert rest[i] == es[i + 1] && rest[j] == es[j + 1];
        }
      }
      NonGitDirsUnique(rest);
      var ds := NonGitDirs(rest);
      if es[0].Dir? && es[0].name != GitDir {
        assert NonGitDirs(es) == [es[0]] + ds;
        forall i, j | 0 <= i < j < |NonGitDirs(es)|
          ensures NonGitDirs(es)[i].name != NonGitDirs(es)[j].name
        {
          if i == 0 {
            assert NonGitDirs(es)[j] == ds[j - 1] && ds[j - 1] in rest;
          } else {
            assert NonGitDirs(es)[i] == ds[i - 1] && NonGitDirs(es)[j] == ds[j - 1];
          }
        }
      } else {
        assert NonGitDirs(es) == ds;
      }
    }
  }

  /** For a well-formed listing the pruned `dirs` list is the list of
      sub-directories not called `.git`. */
  lemma SubdirsAreNonGit(p: Pending)
    requires WellFormed(p.entries)
    ensures Subdirs(p) == Below(p.path, NonGitDirs(p.entries))
  {
    var es := p.entries;
    DirsOfUnique(es);
    DirsOfAreDirs(es);
    DirsOfNonGit(es);
    assert forall i :: 0 <= i < |DirsOf(es)| ==> DirsOf(es)[i] in DirsOf(es);
    RemoveFirstUnique(DirsOf(es));
  }

  /** Every file the walk reports from `p` lies at or below `p`'s path. */
  lemma {:induction false} WalkUnder(p: Pending)
    ensures forall v :: v in Walk(p) ==> Under(p.path, v.dir)
    decreases SizeOf(p.entries), 1
  {
    FilesOfFacts(p.path, p.entries);
    DirsOfSize(p.entries);
    RemoveFirstSize(DirsOf(p.entries), GitDir);
    var ds := Pruned(DirsOf(p.entries));
    BelowUnder(p.path, ds);
    forall v | v in Walk(p)
      ensures Under(p.path, v.dir)
    {
      if v !in FilesOf(p.path, p.entries) {
        var k :| 0 <= k < |ds| && ds[k].Dir? && Under(p.path + [ds[k].name], v.dir);
        assert v.dir[..|p.path|] == v.dir[..|p.path| + 1][..|p.path|];
      }
    }
  }

  /** Every file reported below the directories `ds` of `dir` lies below
      one of them. */
  lemma {:induction false} BelowUnder(dir: Path, ds: seq<Entry>)
    ensures forall v :: v in WalkAll(Below(dir, ds)) ==>
      exists k | 0 <= k < |ds| :: ds[k].Dir? && Under(dir + [ds[k].name], v.dir)
    decreases SizeOf(ds), 0
  {
    if ds != [] {
      var rest := ds[1..];
      assert ds == [ds[0]] + rest;
      SizeOfCons(ds[0], rest);
      BelowUnder(dir, rest);
      forall v | v in WalkAll(Below(dir, rest))
        ensures exists k | 0 <= k < |ds| :: ds[k].Dir? && Under(dir + [ds[k].name], v.dir)
      {
        var k :| 0 <= k < |rest| && rest[k].Dir? && Under(dir + [rest[k].name], v.dir);
        assert ds[k + 1] == rest[k];
      }
      match ds[0]
      case Dir(n, c) =>
        var q := Pending(dir + [n], c);
        WalkUnder(q);
        assert Below(dir, ds) == [q] + Below(dir, rest);
        WalkAllCons(q, Below(dir, rest));
      case File(_, _, _) =>
        assert Below(dir, ds) == Below(dir, rest);
    }
  }

  /** The walk of a well-formed tree reports each file once. */
  lemma {:induction false} WalkDistinct(p: Pending)
    requires WellFormed(p.entries)
    ensures DistinctFiles(Walk(p))
    decreases SizeOf(p.entries), 1
  {
    var es := p.entries;
    var ds := NonGitDirs(es);
    SubdirsAreNonGit(p);
    NonGitDirsSize(es);
    NonGitDirsAreWellFormedDirs(es);
    NonGitDirsUnique(es);
    FilesOfDistinct(p.path, es);
    FilesOfFacts(p.path, es);
    BelowDistinct(p.path, ds);
    BelowUnder(p.path, ds);
    forall v, w | v in FilesOf(p.path, es) && w in WalkAll(Below(p.path, ds))
      ensures !SameFile(v, w)
    {
      var k :| 0 <= k < |ds| && ds[k].Dir? && Under(p.path + [ds[k].name], w.dir);
    }
    DistinctAppend(FilesOf(p.path, es), WalkAll(Below(p.path, ds)));
  }

  /** Walking well-formed directories with distinct names reports each file
      once. */
  lemma {:induction false} BelowDistinct(dir: Path, ds: seq<Entry>)
    requires forall i :: 0 <= i < |ds| ==> ds[i].Dir? && WellFormed(ds[i].entries)
    requires forall i, j :: 0 <= i < j < |ds| ==> ds[i].name != ds[j].name
    ensures DistinctFiles(WalkAll(Below(dir, ds)))
    decreases SizeOf(ds), 0
  {
    if ds != [] {
      var d, rest := ds[0], ds[1..];
      assert ds == [d] + rest;
      SizeOfCons(d, rest);
      assert forall i :: 0 <= i < |rest| ==> rest[i] == ds[i + 1];
      BelowDistinct(dir, rest);
      var q := Pending(dir + [d.name], d.entries);
      WalkDistinct(q);
      WalkUnder(q);
      BelowUnder(dir, rest);
      assert Below(dir, ds) == [q] + Below(dir, rest);
      WalkAllCons(q, Below(dir, rest));
      forall v, w | v in Walk(q) && w in WalkAll(Below(dir, rest))
        ensures !SameFile(v, w)
      {
        var k :| 0 <= k < |rest| && rest[k].Dir? && Under(dir + [rest[k].name], w.dir);
        assert v.dir[|dir|] == (dir + [d.name])[|dir|] == d.name;
        assert w.dir[|dir|] == (dir + [rest[k].name])[|dir|] == rest[k].name;
      }
      DistinctAppend(Walk(q), WalkAll(Below(dir, rest)));
    }
  }

  // ---------------------------------------------------------------------
  // What happens to each file the walk reports

  /** The file is a `.json` file whose text could be read. */
  predicate Considered(v: Visit)
  {
    EndsWith(v.name, JsonSuffix) && v.read.Read?
  }

  /** The table changes the text of a considered file. */
  predicate Changes(v: Visit, table: Table)
  {
    Considered(v) && ApplyTable(v.read.content, table) != v.read.content
  }

  /** The rewrite of a considered file with its new text. */
  function Rewrite(v: Visit, table: Table): Write
    requires v.read.Read?
  {
    Write(v.dir + [v.name], ApplyTable(v.read.content, table), v.writeOk)
  }

  function StepWrites(v: Visit, table: Table): seq<Write>
  {
    if Changes(v, table) then [Rewrite(v, table)] else []
  }

  /** The rewrites made while handling the files `vs`, in order. */
  function WritesOf(vs: seq<Visit>, table: Table): seq<Write>
  {
    if vs == [] then []
    else WritesOf(vs[..|vs| - 1], table) + StepWrites(vs[|vs| - 1], table)
  }

  /** `has_changes` after handling the files `vs`. */
  function AnyChanged(vs: seq<Visit>, table: Table): bool
  {
    if vs == [] then false
    else AnyChanged(vs[..|vs| - 1], table) || (Changes(vs[|vs| - 1], table) && vs[|vs| - 1].writeOk)
  }

  /** Handling one more file appends its rewrite and may set the flag. */
  lemma HandledSnoc(vs: seq<Visit>, v: Visit, table: Table)
    ensures WritesOf(vs + [v], table) == WritesOf(vs, table) + StepWrites(v, table)
    ensures AnyChanged(vs + [v], table) == (AnyChanged(vs, table) || (Changes(v, table) && v.writeOk))
  {
  }

  /** Handling two runs of files one after the other. */
  lemma {:induction false} HandledAppend(vs: seq<Visit>, ws: seq<Visit>, table: Table)
    ensures WritesOf(vs + ws, table) == WritesOf(vs, table) + WritesOf(ws, table)
    ensures AnyChanged(vs + ws, table) == (AnyChanged(vs, table) || AnyChanged(ws, table))
    decreases |ws|
  {
    if ws == [] {
      assert vs + ws == vs;
    } else {
      var init, last := ws[..|ws| - 1], ws[|ws| - 1];
      assert ws == init + [last];
      assert vs + ws == (vs + init) + [last];
      HandledAppend(vs, init, table);
      HandledSnoc(vs + init, last, table);
      HandledSnoc(init, last, table);
    }
  }

  /** The flag is set exactly when some considered file changed and was
      rewritten without error. */
  lemma {:induction false} AnyChangedIff(vs: seq<Visit>, table: Table)
    ensures AnyChanged(vs, table) <==>
      exists i | 0 <= i < |vs| :: Changes(vs[i], table) && vs[i].writeOk
    decreases |vs|
  {
    if vs != [] {
      var init := vs[..|vs| - 1];
      AnyChangedIff(init, table);
      assert forall i | 0 <= i < |init| :: init[i] == vs[i];
    }
  }

  /** A rewrite is made exactly for each considered file whose text the table
      changes, and it carries the new text. */
  lemma {:induction false} WritesOfIff(vs: seq<Visit>, table: Table, w: Write)
    ensures w in WritesOf(vs, table) <==>
      exists i | 0 <= i < |vs| :: Changes(vs[i], table) && w == Rewrite(vs[i], table)
    decreases |vs|
  {
    if vs != [] {
      var init := vs[..|vs| - 1];
      WritesOfIff(init, table, w);
      assert forall i | 0 <= i < |init| :: init[i] == vs[i];
    }
  }

  /** Only `.json` files are rewritten, only with a text different from the
      one read, and never a file whose read failed. */
  lemma WritesAreChangedJson(vs: seq<Visit>, table: Table, w: Write)
    requires w in WritesOf(vs, table)
    ensures |w.path| > 0 && EndsWith(w.path[|w.path| - 1], JsonSuffix)
    ensures exists i | 0 <= i < |vs| ::
      vs[i].read.Read? && w.text == ApplyTable(vs[i].read.content, table) && w.text != vs[i].read.content
  {
  }

  /** Two different files have different full paths. */
  lemma FullPathsDiffer(v: Visit, w: Visit)
    requires !SameFile(v, w)
    ensures v.dir + [v.name] != w.dir + [w.name]
  {
    if |v.dir| == |w.dir| && v.dir != w.dir {
      assert (v.dir + [v.name])[..|v.dir|] == v.dir;
      assert (w.dir + [w.name])[..|w.dir|] == w.dir;
    } else if |v.dir| == |w.dir| {
      assert (v.dir + [v.name])[|v.dir|] == v.name;
      assert (w.dir + [w.name])[|w.dir|] == w.name;
    }
  }

  /** When no file occurs twice, no path is rewritten twice. */
  lemma {:induction false} WritesOfDistinctPaths(vs: seq<Visit>, table: Table)
    requires DistinctFiles(vs)
    ensures forall i, j :: 0 <= i < j < |WritesOf(vs, table)| ==>
      WritesOf(vs, table)[i].path != WritesOf(vs, table)[j].path
    decreases |vs|
  {
    if vs != [] {
      var init, last := vs[..|vs| - 1], vs[|vs| - 1];
      assert forall i :: 0 <= i < |init| ==> init[i] == vs[i];
      WritesOfDistinctPaths(init, table);
      var ws, s := WritesOf(init, table), StepWrites(last, table);
      if s != [] {
        forall i | 0 <= i < |ws|
          ensures ws[i].path != s[0].path
        {
          WritesOfIff(init, table, ws[i]);
          var k :| 0 <= k < |init| && Changes(init[k], table) && ws[i] == Rewrite(init[k], table);
          FullPathsDiffer(vs[k], last);
        }
        forall i, j | 0 <= i < j < |ws + s|
          ensures (ws + s)[i].path != (ws + s)[j].path
        {
          if j < |ws| {
            assert (ws + s)[i] == ws[i] && (ws + s)[j] == ws[j];
          } else {
            assert (ws + s)[i] == ws[i] && (ws + s)[j] == s[0];
          }
        }
      }
    }
  }

  // ---------------------------------------------------------------------
  // scan_and_replace and the script's output

  /** Listing the first pending directory reports its files, and leaves its
      pruned sub-directories to be walked before the rest; the stack shrinks. */
  lemma WalkStep(visited: seq<Visit>, cur: Pending, rest: seq<Pending>)
    ensures visited + WalkAll([cur] + rest)
         == (visited + FilesOf(cur.path, cur.entries)) + WalkAll(Subdirs(cur) + rest)
  {
    WalkListing(cur, rest);
    ConcatAssoc(visited, FilesOf(cur.path, cur.entries), WalkAll(Subdirs(cur) + rest));
  }

  lemma WalkListing(cur: Pending, rest: seq<Pending>)
    ensures WalkAll([cur] + rest) == FilesOf(cur.path, cur.entries) + WalkAll(Subdirs(cur) + rest)
  {
    var files, subs := FilesOf(cur.path, cur.entries), Subdirs(cur);
    calc {
      WalkAll([cur] + rest);
      { WalkAllCons(cur, rest); }
      Walk(cur) + WalkAll(rest);
      { WalkUnfold(cur); }
      (files + WalkAll(subs)) + WalkAll(rest);
      { ConcatAssoc(files, WalkAll(subs), WalkAll(rest)); }
      files + (WalkAll(subs) + WalkAll(rest));
      { WalkAllAppend(subs, rest); }
      files + WalkAll(subs + rest);
    }
  }

  lemma ConcatAssoc(a: seq<Visit>, b: seq<Visit>, c: seq<Visit>)
    ensures a + (b + c) == (a + b) + c
  {
  }

  lemma WalkUnfold(p: Pending)
    ensures Walk(p) == FilesOf(p.path, p.entries) + WalkAll(Subdirs(p))
  {
  }

  /** The stack of directories still to list shrinks at each step. */
  lemma WalkStepShrinks(cur: Pending, rest: seq<Pending>)
    ensures PendingSize(Subdirs(cur) + rest) < PendingSize([cur] + rest)
  {
    SubdirsSmaller(cur);
    PendingSizeCons(cur, rest);
    PendingSizeAppend(Subdirs(cur), rest);
  }

  /** The body of `for file in files`: a `.json` file that can be read gets
      the substitution pass and, if its text changed, is rewritten; `changed`
      is whether that rewrite succeeded, which is when `has_changes` is set. */
  method HandleFile(f: Visit, table: Table) returns (changed: bool, written: seq<Write>)
    ensures written == StepWrites(f, table)
    ensures changed <==> Changes(f, table) && f.writeOk
  {
    changed, written := false, [];
    if EndsWith(f.name, JsonSuffix) {
      match f.read
      case ReadFailed =>
      case Read(content) =>
        var newContent := ApplyRules(content, table);
        if content != newContent {
          written := [Write(f.dir + [f.name], newContent, f.writeOk)];
          changed := f.writeOk;
        }
    }
  }

  /** One pass of the walk loop keeps its invariant and shrinks the stack. */
  lemma ScanStep(top: seq<Entry>, table: Table, visited: seq<Visit>, cur: Pending, rest: seq<Pending>)
    requires visited + WalkAll([cur] + rest) == Walk(Pending([], top))
    ensures (visited + FilesOf(cur.path, cur.entries)) + WalkAll(Subdirs(cur) + rest) == Walk(Pending([], top))
    ensures AnyChanged(visited + FilesOf(cur.path, cur.entries), table)
         == (AnyChanged(visited, table) || AnyChanged(FilesOf(cur.path, cur.entries), table))
    ensures WritesOf(visited + FilesOf(cur.path, cur.entries), table)
         == WritesOf(visited, table) + WritesOf(FilesOf(cur.path, cur.entries), table)
    ensures PendingSize(Subdirs(cur) + rest) < PendingSize([cur] + rest)
  {
    WalkStep(visited, cur, rest);
    WalkStepShrinks(cur, rest);
    HandledAppend(visited, FilesOf(cur.path, cur.entries), table);
  }

  /** The loop `for file in files` over one directory's files. */
  method HandleFiles(files: seq<Visit>, table: Table) returns (changed: bool, written: seq<Write>)
    ensures changed == AnyChanged(files, table)
    ensures written == WritesOf(files, table)
  {
    changed, written := false, [];
    var i := 0;
    while i < |files|
      invariant 0 <= i <= |files|
      invariant changed == AnyChanged(files[..i], table)
      invariant written == WritesOf(files[..i], table)
    {
      var fileChanged, fileWritten := HandleFile(files[i], table);
      if fileChanged {
        changed := true;
      }
      written := written + fileWritten;
      assert files[..i + 1] == files[..i] + [files[i]];
      HandledSnoc(files[..i], files[i], table);
      i := i + 1;
    }
    assert files[..i] == files;
  }

  /** The tree walk of `scan_and_replace`: a stack of directories still to
      list, visited in os.walk's top-down order, the `.git` pruning, and each file handled in
      turn. The flag and the rewrites are those of the files the walk
      reports, in its order. */
  method ScanAndReplace(top: seq<Entry>, table: Table) returns (hasChanges: bool, writes: seq<Write>)
    ensures hasChanges == AnyChanged(Walk(Pending([], top)), table)
    ensures writes == WritesOf(Walk(Pending([], top)), table)
  {
    hasChanges, writes := false, [];
    var stack := [Pending([], top)];
    ghost var visited: seq<Visit> := [];
    WalkAllCons(Pending([], top), []);
    while stack != []
      invariant visited + WalkAll(stack) == Walk(Pending([], top))
      invariant hasChanges == AnyChanged(visited, table)
      invariant writes == WritesOf(visited, table)
      decreases PendingSize(stack)
    {
      var cur, rest := stack[0], stack[1..];
      var files := FilesOf(cur.path, cur.entries);
      var dirs := DirsOf(cur.entries);
      if HasDir(dirs, GitDir) {
        dirs := RemoveFirst(dirs, GitDir);
      }
      var changed, written := HandleFiles(files, table);
      assert stack == [cur] + rest;
      assert Below(cur.path, dirs) == Subdirs(cur);
      ScanStep(top, table, visited, cur, rest);
      if changed {
        hasChanges := true;
      }
      writes := writes + written;
      visited := visited + files;
      stack := Below(cur.path, dirs) + rest;
    }
    assert visited == Walk(Pending([], top));
  }

  /** The line the script prints for the overall flag. */
  function DetectChangeLine(changed: bool): (line: string)
    ensures line == "DETECT_CHANGE=true" || line == "DETECT_CHANGE=false"
    ensures line == "DETECT_CHANGE=true" <==> changed
  {
    var t, f := "DETECT_CHANGE=true", "DETECT_CHANGE=false";
    assert t[14] != f[14];
    if changed then t else f
  }

  /** On a well-formed tree `has_changes` is set exactly when some readable
      `.json` file outside `.git` changed and was rewritten without error. */
  lemma FlagMeansVisibleChange(top: seq<Entry>, table: Table)
    requires WellFormed(top)
    ensures AnyChanged(Walk(Pending([], top)), table) <==>
      exists v :: v in Visible([], top) && Changes(v, table) && v.writeOk
  {
    var vs := Walk(Pending([], top));
    AnyChangedIff(vs, table);
    WalkIsVisible(Pending([], top));
    if AnyChanged(vs, table) {
      var i :| 0 <= i < |vs| && Changes(vs[i], table) && vs[i].writeOk;
      assert vs[i] in vs;
    }
    if exists v :: v in Visible([], top) && Changes(v, table) && v.writeOk {
      var v :| v in Visible([], top) && Changes(v, table) && v.writeOk;
      assert v in vs;
      var i :| 0 <= i < |vs| && vs[i] == v;
    }
  }

  /** On a well-formed tree the rewrites are exactly those of the readable
      `.json` files outside `.git` whose text the table changes. */
  lemma WritesMeanVisibleChanges(top: seq<Entry>, table: Table, w: Write)
    requires WellFormed(top)
    ensures w in WritesOf(Walk(Pending([], top)), table) <==>
      exists v :: v in Visible([], top) && Changes(v, table) && w == Rewrite(v, table)
  {
    var vs := Walk(Pending([], top));
    WritesOfIff(vs, table, w);
    WalkIsVisible(Pending([], top));
    if w in WritesOf(vs, table) {
      var i :| 0 <= i < |vs| && Changes(vs[i], table) && w == Rewrite(vs[i], table);
      assert vs[i] in vs;
    }
    if exists v :: v in Visible([], top) && Changes(v, table) && w == Rewrite(v, table) {
      var v :| v in Visible([], top) && Changes(v, table) && w == Rewrite(v, table);
      assert v in vs;
      var i :| 0 <= i < |vs| && vs[i] == v;
    }
  }

  /** What `scan_and_replace` computes, stated on the files outside `.git`. */
  lemma ScanMeaning(top: seq<Entry>, table: Table)
    requires WellFormed(top)
    ensures AnyChanged(Walk(Pending([], top)), table) <==>
      exists v :: v in Visible([], top) && Changes(v, table) && v.writeOk
    ensures forall w :: w in WritesOf(Walk(Pending([], top)), table) <==>
      exists v :: v in Visible([], top) && Changes(v, table) && w == Rewrite(v, table)
  {
    FlagMeansVisibleChange(top, table);
    forall w
      ensures w in WritesOf(Walk(Pending([], top)), table) <==>
        exists v :: v in Visible([], top) && Changes(v, table) && w == Rewrite(v, table)
    {
      WritesMeanVisibleChanges(top, table, w);
    }
  }

  /** The script's entry point: scan with the fixed table and print the flag.
      On a well-formed tree the line says `true` exactly when some readable
      `.json` file outside `.git` changed and was rewritten successfully, and
      the rewrites are exactly those of such files whose text changed. */
  method DetectChange(top: seq<Entry>) returns (line: string, writes: seq<Write>)
    ensures line == "DETECT_CHANGE=true" || line == "DETECT_CHANGE=false"
    ensures line == "DETECT_CHANGE=true" <==> AnyChanged(Walk(Pending([], top)), AntiHarmony)
    ensures writes == WritesOf(Walk(Pending([], top)), AntiHarmony)
    ensures WellFormed(top) ==>
      (line == "DETECT_CHANGE=true" <==>
        exists v :: v in Visible([], top) && Changes(v, AntiHarmony) && v.writeOk)
    ensures WellFormed(top) ==> forall w ::
      w in writes <==> exists v :: v in Visible([], top) && Changes(v, AntiHarmony) && w == Rewrite(v, AntiHarmony)
  {
    var changed;
    changed, writes := ScanAndReplace(top, AntiHarmony);
    line := DetectChangeLine(changed);
    if WellFormed(top) {
      ScanMeaning(top, AntiHarmony);
    }
  }

  /** On a well-formed tree each file is reported once and each path is
      rewritten at most once. */
  lemma EachFileOnce(top: seq<Entry>, table: Table)
    requires WellFormed(top)
    ensures DistinctFiles(Walk(Pending([], top)))
    ensures forall i, j :: 0 <= i < j < |WritesOf(Walk(Pending([], top)), table)| ==>
      WritesOf(Walk(Pending([], top)), table)[i].path != WritesOf(Walk(Pending([], top)), table)[j].path
  {
    WalkDistinct(Pending([], top));
    WritesOfDistinctPaths(Walk(Pending([], top)), table);
  }

  /** Nothing below a `.git` directory is visited, at any depth. */
  lemma NoGitDirectoryVisited(top: seq<Entry>)
    requires WellFormed(top)
    ensures forall v :: v in Walk(Pending([], top)) ==> GitDir !in v.dir
  {
    WalkIsVisible(Pending([], top));
    VisibleOutsideGit([], top);
  }

  /** The script's rule for the directory list is `dirs.remove`, which drops
      only the first `.git`; names are unique in a real directory, so that is
      all of them. On a listing with two `.git` entries the second one would
      be walked. */
  lemma SecondGitEntryWouldBeWalked()
    ensures Walk(Pending([], [Dir(".git", []), Dir(".git", [File("a.json", ReadFailed, true)])]))
         == [Visit([".git"], "a.json", ReadFailed, true)]
  {
    var g1 := Dir(".git", []);
    var g2 := Dir(".git", [File("a.json", ReadFailed, true)]);
    var top := [g1, g2];
    assert top[1..] == [g2] && [g2][1..] == [];
    assert DirsOf([g2]) == [g2] + DirsOf([]);
    assert DirsOf(top) == [g1] + DirsOf([g2]);
    assert top[0].name == GitDir;
    assert Pruned(top) == [g2];
    assert [] + [GitDir] == [".git"];
    assert Below([], [g2]) == [Pending([".git"], g2.entries)] + Below([], []);
    assert Subdirs(Pending([], top)) == [Pending([".git"], g2.entries)];
    WalkAllCons(Pending([".git"], g2.entries), []);
    assert g2.entries[1..] == [];
    assert DirsOf(g2.entries) == [] + DirsOf([]);
    assert Subdirs(Pending([".git"], g2.entries)) == [];
    assert FilesOf([".git"], g2.entries) == [Visit([".git"], "a.json", ReadFailed, true)] + FilesOf([".git"], []);
    assert FilesOf([], top) == [] + FilesOf([], [g2]);
    assert FilesOf([], [g2]) == [] + FilesOf([], []);
  }
}
