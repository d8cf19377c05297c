/** Discovery of the paths.d directories (src/paths.rs:238-272): the entries
    of /etc/ that become `Pathd` records, with the pattern PATHSD on the
    entry's name and the `is_valid` test on the directory (src/paths.rs:38-69).

    The file system is not modelled: the listing of /etc/ arrives as a
    sequence of RootEntry values, each carrying what `is_dir`, `exists` and
    `read_dir` would report for that path. */
module Discovery {
  import opened Strings
  import opened Paths

  /** What listing a directory gives: an error, no entry, or some entry. */
  datatype Listing = Unlistable | Empty | NonEmpty

  /** What the file system reports about one path. */
  datatype DirStatus = DirStatus(present: bool, isDir: bool, listing: Listing)

  /** One item of the listing of /etc/: an entry that could not be read, or
      a name (with whether it is valid UTF-8) and the status of its path. */
  datatype RootEntry = Unreadable | Entry(name: string, utf8: bool, status: DirStatus)

  /** `Pathd::is_valid`: `exists()? && is_dir()? && !is_empty()?`. The first
      two never fail, and `&&` stops at the first false one, so listing the
      directory (the only step that can fail) happens only for a present
      directory. */
  function IsValid(s: DirStatus): (r: Result<bool>)
    ensures r == Ok(true) <==> s.present && s.isDir && s.listing == NonEmpty
    ensures r == IoError <==> s.present && s.isDir && s.listing == Unlistable
  {
    if !s.present then Ok(false)
    else if !s.isDir then Ok(false)
    else match s.listing
      case Unlistable => IoError
      case Empty => Ok(false)
      case NonEmpty => Ok(true)
  }

  /** An entry that ends up as a record: a present, non-empty directory whose
      name is UTF-8 and matches PATHSD. */
  predicate Kept(e: RootEntry)
  {
    && e.Entry? && e.utf8 && MatchesPathsd(e.name)
    && e.status.present && e.status.isDir && e.status.listing == NonEmpty
  }

  /** An entry that makes discovery fail: one `read_dir` could not read, or
      a directory that would be kept but cannot be listed. */
  predicate Aborts(e: RootEntry)
  {
    || e.Unreadable?
    || (&& e.utf8 && MatchesPathsd(e.name)
        && e.status.present && e.status.isDir && e.status.listing == Unlistable)
  }

  /** The body of the loop in `get_paths_dirs_regex` for one entry, in the
      source's order of tests: directory, UTF-8 name, pattern, `is_valid`. */
  function Admit(e: RootEntry): (r: Result<bool>)
    ensures r == Ok(true) <==> Kept(e)
    ensures r == IoError <==> Aborts(e)
  {
    match e
    case Unreadable => IoError
    case Entry(name, utf8, status) =>
      if !status.isDir then Ok(false)
      else if !utf8 then Ok(false)
      else if !MatchesPathsd(name) then Ok(false)
      else IsValid(status)
  }

  /** The names of the directories `get_paths_dirs_regex` returns, in
      listing order, or the error that stops it. */
  function Discover(es: seq<RootEntry>): Result<seq<string>>
  {
    if es == [] then Ok([])
    else
      var e := es[|es| - 1];
      match Discover(es[..|es| - 1])
      case IoError => IoError
      case Ok(names) =>
        match Admit(e)
        case IoError => IoError
        case Ok(keep) => Ok(if keep then names + [e.name] else names)
  }

  /** Discovery fails exactly when some entry of the listing aborts it. */
  lemma {:induction false} DiscoverFails(es: seq<RootEntry>)
    ensures Discover(es).IoError? <==> exists i :: 0 <= i < |es| && Aborts(es[i])
  {
    if es != [] {
      var init := es[..|es| - 1];
      DiscoverFails(init);
      if exists i :: 0 <= i < |init| && Aborts(init[i]) {
        var i :| 0 <= i < |init| && Aborts(init[i]);
        assert es[i] == init[i];
      }
      if exists i :: 0 <= i < |es| && Aborts(es[i]) {
        var i :| 0 <= i < |es| && Aborts(es[i]);
        if i < |init| {
          assert init[i] == es[i];
        }
      }
    }
  }

  /** When it succeeds, discovery returns exactly the names of the kept
      entries. */
  lemma {:induction false} DiscoverKeeps(es: seq<RootEntry>, name: string)
    requires Discover(es).Ok?
    ensures name in Discover(es).value <==> exists i :: 0 <= i < |es| && Kept(es[i]) && es[i].name == name
  {
    if es != [] {
      var init := es[..|es| - 1];
      DiscoverKeeps(init, name);
      if exists i :: 0 <= i < |init| && Kept(init[i]) && init[i].name == name {
        var i :| 0 <= i < |init| && Kept(init[i]) && init[i].name == name;
        assert es[i] == init[i];
      }
      if exists i :: 0 <= i < |es| && Kept(es[i]) && es[i].name == name {
        var i :| 0 <= i < |es| && Kept(es[i]) && es[i].name == name;
        if i < |init| {
          assert init[i] == es[i];
        }
      }
    }
  }

  /** Every name that matches PATHSD gives a path under /etc/ for which
      `envkey` succeeds. */
  lemma PathdPathOfMatch(name: string)
    requires MatchesPathsd(name)
    ensures IsPathdPath(Root + name)
  {
    assert (Root + name)[..|Root|] == Root && (Root + name)[|Root|..] == name;
  }

  /** So discovery never hands `Pathd::new` a path on which `envkey` would
      panic. */
  lemma {:induction false} DiscoveredArePathdPaths(es: seq<RootEntry>)
    requires Discover(es).Ok?
    ensures forall n :: n in Discover(es).value ==> IsPathdPath(Root + n)
  {
    forall n | n in Discover(es).value ensures IsPathdPath(Root + n) {
      DiscoverKeeps(es, n);
      var i :| 0 <= i < |es| && Kept(es[i]) && es[i].name == n;
      PathdPathOfMatch(n);
    }
  }

  lemma DiscoverStep(es: seq<RootEntry>, k: nat)
    requires k < |es|
    ensures Discover(es[..k + 1]) ==
      match Discover(es[..k])
      case IoError => IoError
      case Ok(names) =>
        match Admit(es[k])
        case IoError => IoError
        case Ok(keep) => Ok(if keep then names + [es[k].name] else names)
  {
    assert es[..k + 1][..k] == es[..k];
  }

  lemma {:induction false} DiscoverErrorPersists(es: seq<RootEntry>, k: nat)
    requires k <= |es| && Discover(es[..k]).IoError?
    ensures Discover(es).IoError?
    decreases |es| - k
  {
    if k == |es| {
      assert es[..k] == es;
    } else {
      DiscoverStep(es, k);
      DiscoverErrorPersists(es, k + 1);
    }
  }

  /** `get_paths_dirs_regex(ROOTD, PATHSD)`: a failed listing of /etc/ or
      an aborting entry gives the error; otherwise one fresh record per
      discovered name, in listing order, each with the key of its path and
      nothing collected yet. */
  method GetPathsDirs(root: Result<seq<RootEntry>>) returns (r: Result<seq<Pathd>>)
    ensures root.IoError? ==> r.IoError?
    ensures root.Ok? ==> (r.IoError? <==> Discover(root.value).IoError?)
    ensures root.Ok? && r.Ok? ==>
      var names := Discover(root.value).value;
      && |r.value| == |names|
      && forall i :: 0 <= i < |names| ==>
        && fresh(r.value[i])
        && r.value[i].dir == Root + names[i]
        && IsPathdPath(Root + names[i])
        && r.value[i].key == EnvKey(Root + names[i])
        && r.value[i].paths == []
  {
    if root.IoError? {
      return IoError;
    }
    var es := root.value;
    var pathds: seq<Pathd> := [];
    var k := 0;
    while k < |es|
      invariant 0 <= k <= |es|
      invariant Discover(es[..k]).Ok?
      invariant |pathds| == |Discover(es[..k]).value|
      invariant forall i :: 0 <= i < |pathds| ==>
        var name := Discover(es[..k]).value[i];
        && fresh(pathds[i])
        && pathds[i].dir == Root + name
        && IsPathdPath(Root + name)
        && pathds[i].key == EnvKey(Root + name)
        && pathds[i].paths == []
    {
      DiscoverStep(es, k);
      match es[k]
      case Unreadable =>
        DiscoverErrorPersists(es, k + 1);
        return IoError;
      case Entry(name, utf8, status) =>
        if status.isDir && utf8 && MatchesPathsd(name) {
          PathdPathOfMatch(name);
          var pathd := new Pathd(Root + name);
          match IsValid(status)
          case IoError =>
            DiscoverErrorPersists(es, k + 1);
            return IoError;
          case Ok(valid) =>
            if valid {
              pathds := pathds + [pathd];
            }
        }
      k := k + 1;
    }
    assert es[..k] == es;
    return Ok(pathds);
  }
}
