/** Worked examples of the aggregation engine, each stating the exact
    outcome for one shape of input. */
module Scenarios {
  import opened Strings
  import opened Expansion
  import opened Paths

  lemma PathStringExample(p: Pathd)
    requires p.paths == ["/usr/bin", "/opt/bin"]
    ensures p.PathString() == Some("/usr/bin:/opt/bin")
  {
    assert p.paths[0] == "/usr/bin" && p.paths[1..] == ["/opt/bin"];
    assert Join(p.paths, ':') == "/usr/bin" + ":" + "/opt/bin";
    assert "/usr/bin" + ":" + "/opt/bin" == "/usr/bin:/opt/bin";
  }

  /** One file holding two plain paths around a comment and an empty line
      contributes the two paths, in file order. */
  lemma AggregationExample(env: map<string, string>, entries: seq<FileEntry>, p: string, q: string)
    requires entries == [FileEntry("f", Text, Some([p, "# comment", "", q]))]
    requires PlainPath(p) && PlainPath(q)
    ensures !ProbeFails(entries)
    ensures Collect(env, SortByName(TextFiles(entries))) == [p, q]
  {
    assert TextFiles(entries) == entries;
    assert SortByName(entries) == entries;
    ExampleFileLines(env, entries[0].lines.value, p, q);
    assert Collect(env, entries[1..]) == [];
  }

  /** An absolute path without '$' and without a refused character. */
  predicate PlainPath(line: string)
  {
    line != [] && line[0] == '/' && '$' !in line && HasOnlyAllowedChars(line)
  }

  lemma PathKept(env: map<string, string>, line: string)
    requires PlainPath(line)
    ensures Contribution(env, line) == [line]
  {
    assert !IsWhitespace(line[0]);
    AcceptedWhenContentFirst(line);
    PlainLineKept(env, line);
  }

  lemma ExampleFileLines(env: map<string, string>, lines: seq<string>, p: string, q: string)
    requires lines == [p, "# comment", "", q]
    requires PlainPath(p) && PlainPath(q)
    ensures AcceptedLines(env, lines) == [p, q]
  {
    var comment, blank := lines[1], lines[2];
    AcceptedLinesFour(env, lines, p, comment, blank, q);
    KeptAroundDropped(Contribution(env, p), Contribution(env, comment), Contribution(env, blank),
                      Contribution(env, q), p, q) by {
      PathKept(env, p);
      CommentDropped(env, comment);
      BlankDropped(env, blank);
      PathKept(env, q);
    }
  }

  /** Concatenation of the four contributions, a hint for the solver only. */
  lemma KeptAroundDropped(a: seq<string>, b: seq<string>, c: seq<string>, d: seq<string>, p: string, q: string)
    requires a == [p] && b == [] && c == [] && d == [q]
    ensures a + (b + (c + d)) == [p, q]
  {
  }

  lemma AcceptedLinesFour(env: map<string, string>, lines: seq<string>, a: string, b: string, c: string, d: string)
    requires lines == [a, b, c, d]
    ensures AcceptedLines(env, lines)
         == Contribution(env, a) + (Contribution(env, b) + (Contribution(env, c) + Contribution(env, d)))
  {
    assert lines[1..] == [b, c, d];
    AcceptedLinesCons(env, lines);
    AcceptedLinesTriple(env, b, c, d);
  }

  lemma AcceptedLinesTriple(env: map<string, string>, a: string, b: string, c: string)
    ensures AcceptedLines(env, [a, b, c]) == Contribution(env, a) + (Contribution(env, b) + Contribution(env, c))
  {
    assert [a, b, c][1..] == [b, c];
    AcceptedLinesCons(env, [a, b, c]);
    AcceptedLinesPair(env, b, c);
  }

  lemma AcceptedLinesPair(env: map<string, string>, a: string, b: string)
    ensures AcceptedLines(env, [a, b]) == Contribution(env, a) + Contribution(env, b)
  {
    assert [a, b][1..] == [b] && [b][1..] == [];
    AcceptedLinesCons(env, [a, b]);
    AcceptedLinesCons(env, [b]);
  }

  lemma CommentDropped(env: map<string, string>, line: string)
    requires line == "# comment"
    ensures Contribution(env, line) == []
  {
    assert !IsWhitespace(line[0]) && TrimStart(line) == line;
  }

  lemma BlankDropped(env: map<string, string>, line: string)
    requires line == ""
    ensures Contribution(env, line) == []
  {
  }

  /** Files are taken in string order of their names, not numerically and
      not in listing order: the lines of `10-a` come before those of `2-b`. */
  lemma OrderingExample(env: map<string, string>, entries: seq<FileEntry>, x: string, y: string)
    requires entries == [FileEntry("2-b", Text, Some([y])), FileEntry("10-a", Text, Some([x]))]
    ensures !ProbeFails(entries)
    ensures Collect(env, SortByName(TextFiles(entries))) == Contribution(env, x) + Contribution(env, y)
  {
    var a, b := entries[1], entries[0];
    ExampleOrder(a, b);
    assert TextFiles(entries[..1]) == [b];
    assert TextFiles(entries) == [b, a];
    SingleLineFile(env, a, x);
    SingleLineFile(env, b, y);
    CollectAppend(Reader(env), [a], [b]);
    assert [a] + [b] == [a, b];
  }

  lemma SingleLineFile(env: map<string, string>, f: FileEntry, line: string)
    requires f.lines == Some([line])
    ensures Collect(env, [f]) == Contribution(env, line)
  {
    assert [line][1..] == [];
    AcceptedLinesCons(env, [line]);
    assert [f][1..] == [];
    assert Collect(env, [f]) == Reader(env)(f) + Collect(env, []);
    assert Reader(env)(f) == AcceptedLines(env, [line]) == Contribution(env, line);
  }

  lemma ExampleOrder(a: FileEntry, b: FileEntry)
    requires a.name == "10-a" && b.name == "2-b"
    ensures SortByName([b, a]) == [a, b]
  {
    assert LessEq(a.name, b.name) && !LessEq(b.name, a.name);
    assert [b, a][1..] == [a];
    assert SortByName([a]) == [a];
    assert Insert(b, [a]) == [a, b];
  }
}
