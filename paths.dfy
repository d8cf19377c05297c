/** The aggregation engine of src/paths.rs: a `Pathd` stands for one
    `<prefix>paths.d` directory under /etc/, holds the environment-variable
    key derived from its name (`envkey`) and collects, file by file in name
    order, the accepted lines of the directory's text files (`get_files`,
    `add_path`), which `path_string` joins with ':'.

    The file system is not modelled: a directory's contents arrive as a
    sequence of FileEntry values, each carrying the outcome of the text probe
    and the lines `get_contents` would read. */
module Paths {
  import opened Strings
  import opened Expansion

  /** `ROOTD` (src/paths.rs:14). */
  const Root: string := "/etc/"

  /** The error side of the source's `Result<_, Box<dyn Error>>`: every error
      the core can produce is an I/O error. */
  datatype Result<+T> = Ok(value: T) | IoError

  // ---------------------------------------------------------------------
  // Key derivation: `envkey` with the pattern `PATHSD`,
  // `(?<env>.*?)paths.d$` (src/paths.rs:15, 119-134).
  // ---------------------------------------------------------------------

  /** `PATHSD` matches `name`: it ends in `paths`, one character other than a
      newline (the `.` is not escaped), and `d`. */
  predicate MatchesPathsd(name: string)
  {
    |name| >= 7 && name[|name| - 7..|name| - 2] == "paths"
    && name[|name| - 2] != '\n' && name[|name| - 1] == 'd'
  }

  /** The longest suffix of `t` without a newline. */
  function TailAfterNewline(t: string): (r: string)
    ensures |r| <= |t|
  {
    if t == [] || t[|t| - 1] == '\n' then [] else TailAfterNewline(t[..|t| - 1]) + [t[|t| - 1]]
  }

  /** It is a suffix, has no newline, and is preceded by a newline unless
      it is all of `t`. */
  lemma {:induction false} TailAfterNewlineSpec(t: string)
    ensures var r := TailAfterNewline(t);
      && r == t[|t| - |r|..]
      && '\n' !in r
      && (|r| == |t| || t[|t| - |r| - 1] == '\n')
  {
    if t != [] && t[|t| - 1] != '\n' {
      var r := TailAfterNewline(t[..|t| - 1]);
      TailAfterNewlineSpec(t[..|t| - 1]);
      assert t[|t| - |r| - 1..] == r + [t[|t| - 1]];
    }
  }

  /** The text captured by the group `env`. The match must end at the end of
      the name, so the capture ends just before the last 7 characters; the
      leftmost match starts as early as `.` (which skips newlines) allows,
      that is at the start or just after the last newline. */
  function EnvCapture(name: string): (c: string)
    requires MatchesPathsd(name)
    ensures |c| <= |name| - 7
  {
    TailAfterNewline(name[..|name| - 7])
  }

  /** The capture is the newline-free text that ends where the final
      `paths?d` begins and starts at the beginning of the name or just
      after its last newline. */
  lemma EnvCaptureSpec(name: string)
    requires MatchesPathsd(name)
    ensures var c := EnvCapture(name);
      && c == name[|name| - 7 - |c|..|name| - 7]
      && '\n' !in c
      && (|c| == |name| - 7 || name[|name| - 8 - |c|] == '\n')
  {
    var t := name[..|name| - 7];
    TailAfterNewlineSpec(t);
    var c := EnvCapture(name);
    assert c == t[|t| - |c|..];
    assert |c| < |t| ==> name[|name| - 8 - |c|] == t[|t| - |c| - 1];
  }

  /** The two `unwrap`s in `envkey` succeed: the path begins with ROOTD and
      the rest matches PATHSD. */
  predicate IsPathdPath(path: string)
  {
    |Root| <= |path| && path[..|Root|] == Root && MatchesPathsd(path[|Root|..])
  }

  /** `envkey`: the capture, verbatim, or "PATH" when the capture is empty. */
  function EnvKey(path: string): (key: string)
    requires IsPathdPath(path)
    ensures key != ""
  {
    var capture := EnvCapture(path[|Root|..]);
    if capture == "" then "PATH" else capture
  }

  lemma {:induction false} TailAfterNewlineWhole(t: string)
    requires '\n' !in t
    ensures TailAfterNewline(t) == t
  {
    if t != [] {
      TailAfterNewlineWhole(t[..|t| - 1]);
      assert t[..|t| - 1] + [t[|t| - 1]] == t;
    }
  }

  /** Naming a directory `<prefix>paths.d` under /etc/ gives back `prefix` as
      the key, case and all, when `prefix` is not empty and has no newline. */
  lemma EnvKeyOfPrefix(prefix: string, c: char, path: string)
    requires prefix != [] && '\n' !in prefix && c != '\n'
    requires path == Root + prefix + "paths" + [c] + "d"
    ensures IsPathdPath(path) && EnvKey(path) == prefix
  {
    var name := prefix + "paths" + [c] + "d";
    assert path[..|Root|] == Root && path[|Root|..] == name;
    assert name[|name| - 7..|name| - 2] == "paths";
    assert name[..|name| - 7] == prefix;
    TailAfterNewlineWhole(prefix);
  }

  /** `/etc/paths.d` gives the default key PATH. */
  lemma EnvKeyDefault(path: string)
    requires path == "/etc/paths.d"
    ensures IsPathdPath(path) && EnvKey(path) == "PATH"
  {
    assert path[..|Root|] == Root && path[|Root|..] == "paths.d";
  }

  /** `/etc/manpaths.d` gives `man`, not uppercased. */
  lemma EnvKeyKeepsCase(path: string)
    requires path == "/etc/manpaths.d"
    ensures IsPathdPath(path) && EnvKey(path) == "man"
  {
    EnvKeyOfPrefix("man", '.', path);
  }

  // ---------------------------------------------------------------------
  // Line acceptance: `add_path` (src/paths.rs:70-86).
  // ---------------------------------------------------------------------

  /** The characters that make `add_path` drop a line (src/paths.rs:71, 78):
      the listed ones and every control character below a space. */
  predicate IsRejectedChar(c: char)
  {
    c in ['\0', '?', '<', '>', ':', '|', '*', '"', '\\'] || c < ' '
  }

  /** The validity test, on the line as read (not the expanded one). */
  predicate HasOnlyAllowedChars(line: string)
  {
    forall i :: 0 <= i < |line| ==> !IsRejectedChar(line[i])
  }

  /** The comment and blank test, on the trimmed line. */
  predicate IsBlankOrComment(line: string)
  {
    var trimmed := Trim(line);
    trimmed == [] || trimmed[0] == '#'
  }

  predicate Accepts(line: string)
  {
    HasOnlyAllowedChars(line) && !IsBlankOrComment(line)
  }

  /** What `add_path` appends for `line`: the expanded, untrimmed line when
      it is accepted, nothing otherwise. */
  function Contribution(env: map<string, string>, line: string): seq<string>
  {
    if Accepts(line) then [Expand(env, line)] else []
  }

  /** `k` is the index of the first character of `line` that is not
      whitespace. */
  ghost predicate FirstContentAt(line: string, k: int)
  {
    0 <= k < |line| && !IsWhitespace(line[k]) && forall i :: 0 <= i < k ==> IsWhitespace(line[i])
  }

  /** A line is accepted exactly when it has no rejected character and its
      first non-whitespace character exists and is not '#'. */
  lemma AcceptsCharacterised(line: string)
    ensures Accepts(line) <==>
      HasOnlyAllowedChars(line) && exists k :: FirstContentAt(line, k) && line[k] != '#'
  {
    var k := |line| - |TrimStart(line)|;
    TrimStartDropsWhitespace(line);
    TrimEmpty(line);
    if Trim(line) != [] {
      assert FirstContentAt(line, k);
      forall j | FirstContentAt(line, j) ensures j == k {
      }
    } else {
      forall j | 0 <= j < |line| ensures !FirstContentAt(line, j) {
        assert IsWhitespace(line[j]);
      }
    }
  }

  /** Every character a line must not contain keeps it out, wherever it
      stands; the separator ':' in particular never comes from a line's own
      text. */
  lemma RejectedCharDropsLine(env: map<string, string>, line: string, i: nat)
    requires i < |line| && IsRejectedChar(line[i])
    ensures Contribution(env, line) == []
  {
  }

  /** The test is on the line as read: `$X` is accepted even when X's value
      holds characters that the test refuses, and its value is what is kept. */
  lemma ValidityIsCheckedBeforeExpansion(env: map<string, string>, line: string)
    requires line == "$X" && env == map["X" := "C:\\bin"]
    ensures Contribution(env, line) == ["C:\\bin"]
  {
    assert line[0] == '$' && line[1] == 'X';
    assert HasOnlyAllowedChars(line);
    AcceptedWhenContentFirst(line);
    ExpandPlain(env, "X", "");
    assert "$" + "X" + "" == line;
    assert Expand(env, "") == "" && "X" in env;
    assert Accepts(line);
    assert Expand(env, line) == "C:\\bin";
  }

  /** A line without a rejected character that starts with content other
      than '#' is accepted. */
  lemma AcceptedWhenContentFirst(line: string)
    requires line != [] && !IsWhitespace(line[0]) && line[0] != '#'
    requires HasOnlyAllowedChars(line)
    ensures Accepts(line)
  {
    assert TrimStart(line) == line;
    TrimEmpty(line);
  }

  /** `each` applied to every line, the results concatenated in line order. */
  function ConcatMap(each: string -> seq<string>, lines: seq<string>): seq<string>
  {
    if lines == [] then [] else each(lines[0]) + ConcatMap(each, lines[1..])
  }

  function Contributor(env: map<string, string>): string -> seq<string>
  {
    line => Contribution(env, line)
  }

  /** The lines of one file, in order, as `add_path` keeps them. */
  function AcceptedLines(env: map<string, string>, lines: seq<string>): seq<string>
  {
    ConcatMap(Contributor(env), lines)
  }

  lemma {:induction false} ConcatMapAppend(each: string -> seq<string>, a: seq<string>, b: seq<string>)
    ensures ConcatMap(each, a + b) == ConcatMap(each, a) + ConcatMap(each, b)
  {
    if a == [] {
      assert a + b == b;
    } else {
      var c := each(a[0]);
      assert (a + b)[0] == a[0] && (a + b)[1..] == a[1..] + b;
      assert ConcatMap(each, a + b) == c + ConcatMap(each, a[1..] + b);
      ConcatMapAppend(each, a[1..], b);
      Associate(c, ConcatMap(each, a[1..]), ConcatMap(each, b));
    }
  }

  /** Every collected value is the expansion of an accepted line. */
  lemma {:induction false} AcceptedLinesSound(env: map<string, string>, lines: seq<string>, v: string)
    requires v in AcceptedLines(env, lines)
    ensures exists i :: 0 <= i < |lines| && Accepts(lines[i]) && v == Expand(env, lines[i])
  {
    AcceptedLinesCons(env, lines);
    if v in Contribution(env, lines[0]) {
      InContribution(env, lines[0], v);
    } else {
      var rest := lines[1..];
      AcceptedLinesSound(env, rest, v);
      var i :| 0 <= i < |rest| && Accepts(rest[i]) && v == Expand(env, rest[i]);
      assert rest[i] == lines[i + 1];
    }
  }

  lemma InContribution(env: map<string, string>, line: string, v: string)
    requires v in Contribution(env, line)
    ensures Accepts(line) && v == Expand(env, line)
  {
  }

  /** When every line gives exactly one value, the values are those of the
      lines, one per line and in line order. */
  lemma {:induction false} ConcatMapSingletons(each: string -> seq<string>, g: string -> string, lines: seq<string>)
    requires forall i :: 0 <= i < |lines| ==> each(lines[i]) == [g(lines[i])]
    ensures |ConcatMap(each, lines)| == |lines|
    ensures forall i :: 0 <= i < |lines| ==> ConcatMap(each, lines)[i] == g(lines[i])
  {
    if lines != [] {
      var rest := lines[1..];
      forall i | 0 <= i < |rest| ensures each(rest[i]) == [g(rest[i])] {
        assert rest[i] == lines[i + 1];
      }
      ConcatMapSingletons(each, g, rest);
      var r := ConcatMap(each, lines);
      assert each(lines[0]) == [g(lines[0])];
      assert r == [g(lines[0])] + ConcatMap(each, rest);
      forall i | 0 <= i < |lines| ensures r[i] == g(lines[i]) {
        if i > 0 {
          assert r[i] == ConcatMap(each, rest)[i - 1];
          assert rest[i - 1] == lines[i];
        }
      }
    }
  }

  /** Nothing is dropped, merged or reordered beyond the line test: when
      every line is accepted, value `i` is the expansion of line `i`, so
      repeated lines are kept as often as they occur. */
  lemma AcceptedLinesOnePerLine(env: map<string, string>, lines: seq<string>)
    requires forall i :: 0 <= i < |lines| ==> Accepts(lines[i])
    ensures |AcceptedLines(env, lines)| == |lines|
    ensures forall i :: 0 <= i < |lines| ==> AcceptedLines(env, lines)[i] == Expand(env, lines[i])
  {
    var g := (l: string) => Expand(env, l);
    forall i | 0 <= i < |lines| ensures Contributor(env)(lines[i]) == [g(lines[i])] {
      assert Accepts(lines[i]);
    }
    ConcatMapSingletons(Contributor(env), g, lines);
  }

  lemma AcceptedLinesCons(env: map<string, string>, lines: seq<string>)
    requires lines != []
    ensures AcceptedLines(env, lines) == Contribution(env, lines[0]) + AcceptedLines(env, lines[1..])
  {
    assert Contributor(env)(lines[0]) == Contribution(env, lines[0]);
  }

  // ---------------------------------------------------------------------
  // The files of a directory and their order: `get_files`
  // (src/paths.rs:96-112), `is_text_file` and `get_contents`
  // (src/paths.rs:136-157).
  // ---------------------------------------------------------------------

  /** The outcome of probing one directory entry with `is_text_file`:
      a regular file whose bytes are valid UTF-8, anything else (skipped
      silently), or an I/O error (also the error of `read_dir` yielding a
      bad entry). */
  datatype Probe = Text | NotText | ProbeFailed

  /** One entry of a paths.d directory: its file name, the probe outcome and
      the lines `get_contents` reads from it (None: reading failed). */
  datatype FileEntry = FileEntry(name: string, probe: Probe, lines: Option<seq<string>>)

  /** The entries the first loop of `get_files` keeps, in listing order. */
  function TextFiles(entries: seq<FileEntry>): (files: seq<FileEntry>)
    ensures forall f :: f in files ==> f in entries && f.probe == Text
  {
    if entries == [] then []
    else
      var last := entries[|entries| - 1];
      TextFiles(entries[..|entries| - 1]) + (if last.probe == Text then [last] else [])
  }

  /** Every text entry of the listing is kept by the first loop. */
  lemma {:induction false} TextFilesComplete(entries: seq<FileEntry>)
    ensures forall f :: f in entries && f.probe == Text ==> f in TextFiles(entries)
  {
    if entries != [] {
      var init, last := entries[..|entries| - 1], entries[|entries| - 1];
      TextFilesComplete(init);
      assert entries == init + [last];
    }
  }

  /** Some entry fails its probe, which aborts `get_files` before any line is read. */
  predicate ProbeFails(entries: seq<FileEntry>)
  {
    exists i :: 0 <= i < |entries| && entries[i].probe == ProbeFailed
  }

  predicate SortedByName(files: seq<FileEntry>)
  {
    forall i, j :: 0 <= i < j < |files| ==> LessEq(files[i].name, files[j].name)
  }

  /** Places `f` in front of the first entry whose name is not below its own. */
  function Insert(f: FileEntry, files: seq<FileEntry>): seq<FileEntry>
  {
    if files == [] || LessEq(f.name, files[0].name) then [f] + files
    else [files[0]] + Insert(f, files[1..])
  }

  /** `files.sort()`: the entries in ascending order of name (one directory,
      so comparing the paths compares the names). */
  function SortByName(files: seq<FileEntry>): seq<FileEntry>
  {
    if files == [] then [] else Insert(files[0], SortByName(files[1..]))
  }

  lemma {:induction false} InsertPermutes(f: FileEntry, files: seq<FileEntry>)
    ensures multiset(Insert(f, files)) == multiset(files) + multiset{f}
  {
    if files != [] && !LessEq(f.name, files[0].name) {
      InsertPermutes(f, files[1..]);
      assert files == [files[0]] + files[1..];
    }
  }

  lemma {:induction false} InsertSorted(f: FileEntry, files: seq<FileEntry>)
    requires SortedByName(files)
    ensures SortedByName(Insert(f, files))
  {
    if files != [] {
      if LessEq(f.name, files[0].name) {
        forall j | 0 <= j < |files| ensures LessEq(f.name, files[j].name) {
          if j > 0 { LessEqTransitive(f.name, files[0].name, files[j].name); }
        }
      } else {
        LessEqTotal(f.name, files[0].name);
        InsertSorted(f, files[1..]);
        InsertPermutes(f, files[1..]);
        var r := Insert(f, files[1..]);
        forall j | 0 <= j < |r| ensures LessEq(files[0].name, r[j].name) {
          assert r[j] in multiset(files[1..]) + multiset{f};
          if r[j] != f {
            assert r[j] in files[1..];
          }
        }
      }
    }
  }

  /** The sort orders the entries by name and loses or adds none. */
  lemma {:induction false} SortByNameCorrect(files: seq<FileEntry>)
    ensures SortedByName(SortByName(files))
    ensures multiset(SortByName(files)) == multiset(files)
  {
    if files != [] {
      SortByNameCorrect(files[1..]);
      InsertSorted(files[0], SortByName(files[1..]));
      InsertPermutes(files[0], SortByName(files[1..]));
      assert files == [files[0]] + files[1..];
    }
  }

  predicate DistinctNames(files: seq<FileEntry>)
  {
    forall i, j :: 0 <= i < j < |files| ==> files[i].name != files[j].name
  }

  /** Two name-sorted lists of the same entries, with no name twice, are equal. */
  lemma {:induction false} SortedIsUnique(a: seq<FileEntry>, b: seq<FileEntry>)
    requires SortedByName(a) && SortedByName(b) && DistinctNames(a)
    requires multiset(a) == multiset(b)
    ensures a == b
    decreases |a|
  {
    if a == [] {
      assert |b| == |multiset(b)| == 0;
    } else {
      assert a[0] in multiset(b);
      var j :| 0 <= j < |b| && b[j] == a[0];
      assert b[0] in multiset(a);
      var k :| 0 <= k < |a| && a[k] == b[0];
      LessEqReflexive(a[0].name);
      assert LessEq(b[0].name, b[j].name);
      assert LessEq(a[0].name, a[k].name);
      LessEqAntisymmetric(a[0].name, b[0].name);
      assert k == 0 && a[0] == b[0];
      MultisetTail(a);
      MultisetTail(b);
      SortedTail(a);
      SortedTail(b);
      SortedIsUnique(a[1..], b[1..]);
    }
  }

  lemma MultisetTail(a: seq<FileEntry>)
    requires a != []
    ensures multiset(a[1..]) == multiset(a) - multiset{a[0]}
  {
    assert a == [a[0]] + a[1..];
  }

  lemma SortedTail(a: seq<FileEntry>)
    requires a != [] && SortedByName(a)
    ensures SortedByName(a[1..])
    ensures DistinctNames(a) ==> DistinctNames(a[1..])
  {
    forall i, j | 0 <= i < j < |a[1..]| ensures LessEq(a[1..][i].name, a[1..][j].name) {
      assert a[1..][i] == a[i + 1] && a[1..][j] == a[j + 1];
    }
    if DistinctNames(a) {
      forall i, j | 0 <= i < j < |a[1..]| ensures a[1..][i].name != a[1..][j].name {
        assert a[1..][i] == a[i + 1] && a[1..][j] == a[j + 1];
      }
    }
  }

  /** The order of the files does not depend on the order in which the
      directory was listed. */
  lemma SortByNameIgnoresListingOrder(xs: seq<FileEntry>, ys: seq<FileEntry>)
    requires multiset(xs) == multiset(ys) && DistinctNames(xs)
    ensures SortByName(xs) == SortByName(ys)
  {
    SortByNameCorrect(xs);
    SortByNameCorrect(ys);
    var s := SortByName(xs);
    forall i, j | 0 <= i < j < |s| ensures s[i].name != s[j].name {
      if s[i].name == s[j].name {
        assert s[i] in multiset(xs) && s[j] in multiset(xs);
        var p :| 0 <= p < |xs| && xs[p] == s[i];
        var q :| 0 <= q < |xs| && xs[q] == s[j];
        if p == q {
          MultisetCountTwo(s, i, j);
          assert multiset(s)[s[i]] >= 2;
          MultisetCountOne(xs, p);
        }
      }
    }
    SortedIsUnique(s, SortByName(ys));
  }

  lemma MultisetCountTwo(s: seq<FileEntry>, i: nat, j: nat)
    requires i < j < |s| && s[i] == s[j]
    ensures multiset(s)[s[i]] >= 2
  {
    assert s == s[..i] + [s[i]] + s[i + 1..j] + [s[j]] + s[j + 1..];
  }

  lemma MultisetCountOne(xs: seq<FileEntry>, p: nat)
    requires p < |xs| && DistinctNames(xs)
    ensures multiset(xs)[xs[p]] == 1
  {
    assert xs == xs[..p] + [xs[p]] + xs[p + 1..];
    assert xs[p] !in xs[..p] && xs[p] !in xs[p + 1..] by {
      forall q | 0 <= q < |xs| && q != p ensures xs[q] != xs[p] {
        if q < p { assert xs[q].name != xs[p].name; } else { assert xs[p].name != xs[q].name; }
      }
    }
  }

  /** Every file read successfully. */
  predicate AllReadable(files: seq<FileEntry>)
  {
    forall i :: 0 <= i < |files| ==> files[i].lines.Some?
  }

  /** What one file gives once read: its accepted lines. */
  function FileValues(env: map<string, string>, f: FileEntry): seq<string>
  {
    match f.lines
    case None => []
    case Some(lines) => AcceptedLines(env, lines)
  }

  function Reader(env: map<string, string>): FileEntry -> seq<string>
  {
    f => FileValues(env, f)
  }

  /** `values` of each file taken in this order, up to the first file that
      cannot be read. */
  function CollectBy(values: FileEntry -> seq<string>, files: seq<FileEntry>): seq<string>
  {
    if files == [] || files[0].lines.None? then []
    else values(files[0]) + CollectBy(values, files[1..])
  }

  /** The values `get_files` appends for `files` taken in this order: the
      accepted lines of each file, up to the first file that cannot be read. */
  function Collect(env: map<string, string>, files: seq<FileEntry>): seq<string>
  {
    CollectBy(Reader(env), files)
  }

  lemma {:induction false} CollectAppend(values: FileEntry -> seq<string>, a: seq<FileEntry>, b: seq<FileEntry>)
    requires AllReadable(a)
    ensures CollectBy(values, a + b) == CollectBy(values, a) + CollectBy(values, b)
  {
    if a == [] {
      assert a + b == b;
    } else {
      assert (a + b)[0] == a[0] && (a + b)[1..] == a[1..] + b;
      assert a[0].lines.Some?;
      CollectAppend(values, a[1..], b);
    }
  }

  // ---------------------------------------------------------------------
  // The directory record.
  // ---------------------------------------------------------------------

  /** `Pathd` (src/paths.rs:21-113): the directory, its key (fixed at
      construction) and the collected values (only ever appended to). */
  class Pathd {
    const dir: string
    const key: string
    var paths: seq<string>

    /** `Pathd::new`: the key is derived once, from the path. */
    constructor (path: string)
      requires IsPathdPath(path)
      ensures dir == path && key == EnvKey(path) && paths == []
    {
      dir := path;
      key := EnvKey(path);
      paths := [];
    }

    /** `add_path`: appends the expanded line when the line as read passes
        the character test and its trimmed form is neither empty nor a
        comment; otherwise leaves `paths` alone. */
    method AddPath(env: map<string, string>, line: string)
      modifies this
      ensures paths == old(paths) + Contribution(env, line)
    {
      var expanded := ExpandEnvVars(env, line);
      var trimmed := Trim(line);
      if HasOnlyAllowedChars(line) {
        if trimmed != [] && trimmed[0] != '#' {
          paths := paths + [expanded];
        }
      }
    }

    /** `path_string`: nothing when no value was collected, otherwise the
        values joined with ':'. */
    function PathString(): (r: Option<string>)
      reads this
      ensures r.None? <==> paths == []
    {
      if paths != [] then Some(Join(paths, ':')) else None
    }

    /** The inner loop of `get_files`: `add_path` on each line of one file,
        in file order. */
    method AddLines(env: map<string, string>, lines: seq<string>)
      modifies this
      ensures paths == old(paths) + AcceptedLines(env, lines)
    {
      var j := 0;
      while j < |lines|
        invariant 0 <= j <= |lines|
        invariant paths == old(paths) + AcceptedLines(env, lines[..j])
      {
        ghost var before := paths;
        AddPath(env, lines[j]);
        AcceptedAdvance(env, lines, j, old(paths), before, paths);
        j := j + 1;
      }
      assert lines[..j] == lines;
    }

    /** `get_files`: a directory that cannot be listed, or an entry whose
        probe fails, aborts with nothing appended; otherwise the text files,
        sorted by name, have their lines fed to AddPath. A file that cannot
        be read aborts the call, and what earlier files appended stays. */
    method GetFiles(env: map<string, string>, listing: Result<seq<FileEntry>>) returns (r: Result<()>)
      modifies this
      ensures listing.IoError? ==> r == IoError && paths == old(paths)
      ensures listing.Ok? && ProbeFails(listing.value) ==> r == IoError && paths == old(paths)
      ensures listing.Ok? && !ProbeFails(listing.value) ==>
        var files := SortByName(TextFiles(listing.value));
        && (r.Ok? <==> AllReadable(files))
        && paths == old(paths) + Collect(env, files)
    {
      if listing.IoError? {
        return IoError;
      }
      var probed := ProbeEntries(listing.value);
      if probed.IoError? {
        return IoError;
      }
      var files := SortByName(probed.value);
      r := AddFiles(env, files);
    }

    /** The second loop of `get_files`: the lines of each file in turn, up
        to the first file that cannot be read. */
    method AddFiles(env: map<string, string>, files: seq<FileEntry>) returns (r: Result<()>)
      modifies this
      ensures r.Ok? <==> AllReadable(files)
      ensures paths == old(paths) + Collect(env, files)
    {
      var f := 0;
      while f < |files|
        invariant 0 <= f <= |files|
        invariant AllReadable(files[..f])
        invariant paths == old(paths) + Collect(env, files[..f])
      {
        match files[f].lines
        case None =>
          CollectStopsAtUnreadable(env, files, f);
          return IoError;
        case Some(lines) =>
          ghost var before := paths;
          AddLines(env, lines);
          CollectAdvance(env, files, f, old(paths), before, paths);
          f := f + 1;
      }
      CollectFinish(env, files, f, old(paths), paths);
      r := Ok(());
    }
  }

  /** The first loop of `get_files`: the text files in listing order, or
      the error of the first entry whose probe fails. */
  method ProbeEntries(entries: seq<FileEntry>) returns (r: Result<seq<FileEntry>>)
    ensures r.IoError? <==> ProbeFails(entries)
    ensures r.Ok? ==> r.value == TextFiles(entries)
  {
    var files: seq<FileEntry> := [];
    var k := 0;
    while k < |entries|
      invariant 0 <= k <= |entries|
      invariant files == TextFiles(entries[..k])
      invariant !ProbeFails(entries[..k])
    {
      if entries[k].probe == ProbeFailed {
        return IoError;
      }
      var files' := files + (if entries[k].probe == Text then [entries[k]] else []);
      ProbeAdvance(entries, k, files, files');
      files, k := files', k + 1;
    }
    ProbeFinish(entries, k, files);
    return Ok(files);
  }

  /** One round of the probe loop: the entry at `k` passed its probe. */
  lemma ProbeAdvance(entries: seq<FileEntry>, k: nat, files: seq<FileEntry>, files': seq<FileEntry>)
    requires k < |entries| && entries[k].probe != ProbeFailed
    requires files == TextFiles(entries[..k]) && !ProbeFails(entries[..k])
    requires files' == files + (if entries[k].probe == Text then [entries[k]] else [])
    ensures files' == TextFiles(entries[..k + 1]) && !ProbeFails(entries[..k + 1])
  {
    assert entries[..k + 1][..k] == entries[..k];
  }

  lemma ProbeFinish(entries: seq<FileEntry>, k: nat, files: seq<FileEntry>)
    requires k == |entries| && files == TextFiles(entries[..k]) && !ProbeFails(entries[..k])
    ensures files == TextFiles(entries) && !ProbeFails(entries)
  {
    assert entries[..k] == entries;
  }

  lemma ConcatMapStep(each: string -> seq<string>, lines: seq<string>, j: nat)
    requires j < |lines|
    ensures ConcatMap(each, lines[..j + 1]) == ConcatMap(each, lines[..j]) + each(lines[j])
  {
    assert lines[..j + 1] == lines[..j] + [lines[j]];
    ConcatMapAppend(each, lines[..j], [lines[j]]);
    assert [lines[j]][1..] == [];
  }

  /** One round of the inner loop of `get_files`: line `j` adds its
      values after those of the lines before it. */
  lemma ConcatMapAdvance(each: string -> seq<string>, lines: seq<string>, j: nat,
                         base: seq<string>, before: seq<string>, after: seq<string>)
    requires j < |lines|
    requires before == base + ConcatMap(each, lines[..j])
    requires after == before + each(lines[j])
    ensures after == base + ConcatMap(each, lines[..j + 1])
  {
    ConcatMapStep(each, lines, j);
    Associate(base, ConcatMap(each, lines[..j]), each(lines[j]));
  }

  lemma AcceptedAdvance(env: map<string, string>, lines: seq<string>, j: nat,
                        base: seq<string>, before: seq<string>, after: seq<string>)
    requires j < |lines|
    requires before == base + AcceptedLines(env, lines[..j])
    requires after == before + Contribution(env, lines[j])
    ensures after == base + AcceptedLines(env, lines[..j + 1])
  {
    assert Contributor(env)(lines[j]) == Contribution(env, lines[j]);
    ConcatMapAdvance(Contributor(env), lines, j, base, before, after);
  }

  lemma CollectStep(values: FileEntry -> seq<string>, files: seq<FileEntry>, f: nat)
    requires f < |files| && AllReadable(files[..f]) && files[f].lines.Some?
    ensures AllReadable(files[..f + 1])
    ensures CollectBy(values, files[..f + 1]) == CollectBy(values, files[..f]) + values(files[f])
  {
    assert files[..f + 1] == files[..f] + [files[f]];
    CollectAppend(values, files[..f], [files[f]]);
    assert [files[f]][1..] == [];
  }

  /** One round of the second loop of `get_files`: the lines of file `f`
      extend what the files before it gave. */
  lemma CollectAdvance(env: map<string, string>, files: seq<FileEntry>, f: nat,
                       base: seq<string>, before: seq<string>, after: seq<string>)
    requires f < |files| && AllReadable(files[..f]) && files[f].lines.Some?
    requires before == base + Collect(env, files[..f])
    requires after == before + AcceptedLines(env, files[f].lines.value)
    ensures AllReadable(files[..f + 1])
    ensures after == base + Collect(env, files[..f + 1])
  {
    CollectStep(Reader(env), files, f);
    assert Reader(env)(files[f]) == AcceptedLines(env, files[f].lines.value);
    Associate(base, Collect(env, files[..f]), AcceptedLines(env, files[f].lines.value));
  }

  lemma CollectFinish(env: map<string, string>, files: seq<FileEntry>, f: nat,
                      base: seq<string>, after: seq<string>)
    requires f == |files| && AllReadable(files[..f]) && after == base + Collect(env, files[..f])
    ensures AllReadable(files) && after == base + Collect(env, files)
  {
    assert files[..f] == files;
  }

  lemma CollectStopsAtUnreadable(env: map<string, string>, files: seq<FileEntry>, f: nat)
    requires f < |files| && AllReadable(files[..f]) && files[f].lines.None?
    ensures !AllReadable(files)
    ensures Collect(env, files) == Collect(env, files[..f])
  {
    assert files == files[..f] + files[f..];
    CollectAppend(Reader(env), files[..f], files[f..]);
    assert files[f..][0] == files[f];
  }

  // ---------------------------------------------------------------------
  // What the collected values look like from outside.
  // ---------------------------------------------------------------------

  /** Splitting `path_string` on ':' gives the collected values back, as
      long as none of them holds a ':' of its own. */
  lemma PathStringRoundTrip(p: Pathd)
    requires p.paths != []
    requires forall i :: 0 <= i < |p.paths| ==> ':' !in p.paths[i]
    ensures p.PathString().Some?
    ensures Split(p.PathString().value, ':') == p.paths
  {
    SplitJoin(p.paths, ':');
  }

  /** A line's own text never holds ':' once accepted, so a value with a ':'
      comes from a variable's expansion: without '$' there is none. */
  lemma AcceptedLiteralHasNoSeparator(env: map<string, string>, line: string)
    requires '$' !in line
    ensures forall v :: v in Contribution(env, line) ==> v == line && ':' !in v
  {
    if Accepts(line) {
      ExpandWithoutDollar(env, line);
      assert Contribution(env, line) == [line];
    }
  }

  /** An accepted line without '$' is kept as it is. */
  lemma PlainLineKept(env: map<string, string>, line: string)
    requires '$' !in line && Accepts(line)
    ensures Contribution(env, line) == [line]
  {
    ExpandWithoutDollar(env, line);
  }

  /** What `get_files` appends depends only on which files the directory
      holds, not on the order the directory lists them in. */
  lemma CollectIgnoresListingOrder(env: map<string, string>, xs: seq<FileEntry>, ys: seq<FileEntry>)
    requires multiset(TextFiles(xs)) == multiset(TextFiles(ys)) && DistinctNames(TextFiles(xs))
    ensures Collect(env, SortByName(TextFiles(xs))) == Collect(env, SortByName(TextFiles(ys)))
  {
    SortByNameIgnoresListingOrder(TextFiles(xs), TextFiles(ys));
  }

  /** The first loop keeps every text entry as often as the listing holds it. */
  lemma {:induction false} TextFilesMultiset(xs: seq<FileEntry>, f: FileEntry)
    ensures multiset(TextFiles(xs))[f] == if f.probe == Text then multiset(xs)[f] else 0
  {
    if xs != [] {
      var init, last := xs[..|xs| - 1], xs[|xs| - 1];
      TextFilesMultiset(init, f);
      assert xs == init + [last];
    }
  }

  /** The text files of a listing with distinct names have distinct names. */
  lemma {:induction false} TextFilesDistinct(xs: seq<FileEntry>)
    requires DistinctNames(xs)
    ensures DistinctNames(TextFiles(xs))
  {
    if xs != [] {
      var init, last := xs[..|xs| - 1], xs[|xs| - 1];
      TextFilesDistinct(init);
      var t := TextFiles(init);
      forall f | f in t ensures f.name != last.name {
        var k :| 0 <= k < |init| && init[k] == f;
        assert xs[k] == f;
      }
    }
  }

  /** The same files listed in any order give the same values: what
      `get_files` appends depends only on the directory's contents. */
  lemma ListingOrderIrrelevant(env: map<string, string>, xs: seq<FileEntry>, ys: seq<FileEntry>)
    requires multiset(xs) == multiset(ys) && DistinctNames(xs)
    ensures Collect(env, SortByName(TextFiles(xs))) == Collect(env, SortByName(TextFiles(ys)))
  {
    forall f ensures multiset(TextFiles(xs))[f] == multiset(TextFiles(ys))[f] {
      TextFilesMultiset(xs, f);
      TextFilesMultiset(ys, f);
    }
    assert multiset(TextFiles(xs)) == multiset(TextFiles(ys));
    TextFilesDistinct(xs);
    CollectIgnoresListingOrder(env, xs, ys);
  }
}
