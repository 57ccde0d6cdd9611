/** The repository digest: the walk over the checkout, the sampled code excerpts,
    the test, binary and total file listings, and the labelled text that holds them. */
module RepoSummary {
  import opened Wrappers
  import opened Sequences
  import opened Strings
  import opened FileClassifier

  /** One regular file met by the walk: its full path (directory joined with the
      name), its base name, its bytes, and the lines that reading the first 100
      lines as UTF-8 yields, each with its line terminator, or `None` when that
      read fails to decode. */
  datatype Entry = Entry(path: string, name: string, content: seq<byte>, lines: Option<seq<string>>)

  /** What the scorer reads from a checkout: the files in walk order, the
      contents of README.md, LICENSE and .gitignore at the top level (empty when
      absent), the commit subjects as the log prints them, and the size text. */
  datatype Repository = Repository(
    files: seq<Entry>, readme: string, license: string, gitignore: string,
    commitLog: string, size: string)

  /** At most this many source files are sampled. */
  const MaxSamples: nat := 10
  /** At most this many lines of a sampled file are quoted. */
  const ExcerptLines: nat := 100

  /** Kept for sampling: any file named by the allowlist, except one named exactly README.md. */
  predicate IsSampleCandidate(e: Entry)
  {
    e.name != "README.md" && IsSourceCodeFile(e.name)
  }

  /** Listed as a test: "test" anywhere in the full path, and not binary.
      Nothing here excludes the version-control directory. */
  predicate IsTestFile(e: Entry)
  {
    Contains(e.path, "test") && !IsBinaryFile(e.content)
  }

  /** Counted at all: ".git" nowhere in the full path, which also leaves out
      .gitignore, .gitattributes and anything under .github. */
  predicate IsCounted(e: Entry)
  {
    !Contains(e.path, ".git")
  }

  /** Listed as binary: counted, and the sniff finds a null byte. */
  predicate IsListedBinary(e: Entry)
  {
    IsCounted(e) && IsBinaryFile(e.content)
  }

  predicate IsSniffedBinary(e: Entry)
  {
    IsBinaryFile(e.content)
  }

  predicate Decodes(e: Entry)
  {
    e.lines.Some?
  }

  function SourceFiles(files: seq<Entry>): seq<Entry> { Filter(files, IsSampleCandidate) }
  function TestFiles(files: seq<Entry>): seq<Entry> { Filter(files, IsTestFile) }
  function BinaryFiles(files: seq<Entry>): seq<Entry> { Filter(files, IsListedBinary) }
  function CountedFiles(files: seq<Entry>): seq<Entry> { Filter(files, IsCounted) }

  function Paths(files: seq<Entry>): (r: seq<string>)
    ensures |r| == |files|
  {
    seq(|files|, i requires 0 <= i < |files| => files[i].path)
  }

  /** The walk of the source: one pass over the files, appending those that `keep` accepts. */
  method Collect(files: seq<Entry>, keep: Entry -> bool) returns (kept: seq<Entry>)
    ensures kept == Filter(files, keep)
  {
    kept := [];
    for i := 0 to |files|
      invariant kept == Filter(files[..i], keep)
    {
      assert files[..i + 1][..i] == files[..i];
      if keep(files[i]) {
        kept := kept + [files[i]];
      }
    }
    assert files[..|files|] == files;
  }

  /** Entries of the walk that the collection for a listing keeps are exactly the
      entries of the walk that satisfy its condition. */
  lemma CollectedExactly(files: seq<Entry>, keep: Entry -> bool, e: Entry)
    ensures e in Filter(files, keep) <==> e in files && keep(e)
  {
    var r := Filter(files, keep);
    if e in r {
      var i :| 0 <= i < |r| && r[i] == e;
      var j :| 0 <= j < |files| && files[j] == r[i];
    }
    if e in files && keep(e) {
      var j :| 0 <= j < |files| && files[j] == e;
      FilterKeepsEverySatisfyingElement(files, keep, j);
    }
  }

  /** The binary listing is the counted listing narrowed to the files the sniff
      flags, so it is a subsequence of it and never longer. */
  lemma BinaryFilesWithinCounted(files: seq<Entry>)
    ensures BinaryFiles(files) == Filter(CountedFiles(files), IsSniffedBinary)
    ensures |BinaryFiles(files)| <= |CountedFiles(files)|
  {
    FilterOfFilter(files, IsCounted, IsSniffedBinary, IsListedBinary);
  }

  /** No path holding ".gitignore" is counted: ".git" is a substring of it. */
  lemma IgnoreFileNotCounted(e: Entry)
    requires Contains(e.path, ".gitignore")
    ensures !IsCounted(e)
  {
    assert ".gitignore"[..4] == ".git";
    ContainsPrefixOf(e.path, ".gitignore", ".git");
  }

  /** A text file whose path holds ".github" and "test", a test workflow say, is
      listed as a test but is not counted. */
  lemma WorkflowTestNotCounted(e: Entry)
    requires Contains(e.path, ".github") && Contains(e.path, "test") && !IsBinaryFile(e.content)
    ensures IsTestFile(e) && !IsCounted(e)
  {
    assert ".github"[..4] == ".git";
    ContainsPrefixOf(e.path, ".github", ".git");
  }

  /** So the test listing need not be contained in the counted files, and can
      even be longer than the count. */
  lemma TestFilesNotWithinCounted(e: Entry)
    requires e.path == "repo/" + ".github" + "/workflows/" + "test" + ".yml" && e.content == []
    ensures TestFiles([e]) == [e] && CountedFiles([e]) == []
  {
    ContainsBoth("repo/", ".github", "/workflows/", "test", ".yml");
    WorkflowTestNotCounted(e);
  }

  /** Distinct positions of the source list, as `random.sample` draws them. */
  predicate IsSampleIndices(picks: seq<nat>, n: nat)
  {
    |picks| == Min(n, MaxSamples)
    && (forall i :: 0 <= i < |picks| ==> picks[i] < n)
    && (forall i, j :: 0 <= i < j < |picks| ==> picks[i] != picks[j])
  }

  /** The files at the drawn positions, in the order drawn. */
  function Sample(sources: seq<Entry>, picks: seq<nat>): seq<Entry>
    requires forall i :: 0 <= i < |picks| ==> picks[i] < |sources|
  {
    seq(|picks|, i requires 0 <= i < |picks| => sources[picks[i]])
  }

  /** The sample has min(n, 10) entries, every one from the source list, and no
      path twice when the walk met no path twice. */
  lemma SampleWithoutReplacement(sources: seq<Entry>, picks: seq<nat>)
    requires IsSampleIndices(picks, |sources|)
    ensures |Sample(sources, picks)| == Min(|sources|, MaxSamples)
    ensures forall e :: e in Sample(sources, picks) ==> e in sources
    ensures NoDuplicates(Paths(sources)) ==> NoDuplicates(Paths(Sample(sources, picks)))
  {
    var s := Sample(sources, picks);
    forall e | e in s ensures e in sources {
      var i :| 0 <= i < |s| && s[i] == e;
      assert sources[picks[i]] == e;
    }
    if NoDuplicates(Paths(sources)) {
      forall i, j | 0 <= i < j < |s| ensures Paths(s)[i] != Paths(s)[j] {
        assert Paths(s)[i] == Paths(sources)[picks[i]];
        assert Paths(s)[j] == Paths(sources)[picks[j]];
      }
    }
  }

  /** One excerpt: a path marker, the first (up to) 100 lines, a closing newline. */
  function Block(path: string, lines: seq<string>): string
  {
    "--- File: " + path + " ---\n" + Concat(lines[..Min(|lines|, ExcerptLines)]) + "\n"
  }

  /** Lines after the hundredth never reach the excerpt. */
  lemma BlockIgnoresLaterLines(path: string, lines: seq<string>, more: seq<string>)
    requires |lines| >= ExcerptLines
    ensures Block(path, lines + more) == Block(path, lines)
  {
    assert (lines + more)[..ExcerptLines] == lines[..ExcerptLines];
  }

  /** A short file is quoted whole. */
  lemma BlockQuotesShortFile(path: string, lines: seq<string>)
    requires |lines| <= ExcerptLines
    ensures Block(path, lines) == "--- File: " + path + " ---\n" + Concat(lines) + "\n"
  {
    assert lines[..|lines|] == lines;
  }

  /** What one sampled file adds to the code section: its block, or nothing
      when it fails to decode. */
  function Excerpt(e: Entry): string
  {
    match e.lines
    case Some(lines) => Block(e.path, lines)
    case None => ""
  }

  /** The code section: the excerpts of the sampled files, in sample order. */
  function Snapshot(selected: seq<Entry>): string
  {
    ConcatMap(selected, Excerpt)
  }

  /** The loop over the sample: each file that decodes contributes its block, a
      file that fails to decode contributes nothing and the loop goes on. */
  method SnapshotContent(selected: seq<Entry>) returns (code: string)
    ensures code == Snapshot(selected)
  {
    code := "";
    for i := 0 to |selected|
      invariant code == Snapshot(selected[..i])
    {
      assert selected[..i + 1][..i] == selected[..i];
      match selected[i].lines
      case Some(lines) =>
        code := code + Block(selected[i].path, lines);
      case None =>
        // the decode error is swallowed and the loop goes on
    }
    assert selected[..|selected|] == selected;
  }

  /** The code section of two runs of sampled files is the two sections joined. */
  lemma SnapshotAppend(a: seq<Entry>, b: seq<Entry>)
    ensures Snapshot(a + b) == Snapshot(a) + Snapshot(b)
  {
    ConcatMapAppend(a, b, Excerpt);
  }

  /** A file that fails to decode drops out alone: the blocks of the files before
      and after it are all still there. */
  lemma SnapshotSkipsUndecodable(before: seq<Entry>, e: Entry, after: seq<Entry>)
    requires e.lines.None?
    ensures Snapshot(before + [e] + after) == Snapshot(before) + Snapshot(after)
  {
    SnapshotAppend(before + [e], after);
    SnapshotAppend(before, [e]);
    assert [e][..0] == [];
    assert Snapshot([e]) == Snapshot([]) + Excerpt(e) == "";
    assert Snapshot(before + [e]) == Snapshot(before);
  }

  /** The code section is made of the blocks of the decodable sampled files only. */
  lemma {:induction false} SnapshotOfDecodable(selected: seq<Entry>)
    ensures Snapshot(selected) == Snapshot(Filter(selected, Decodes))
    decreases |selected|
  {
    if selected != [] {
      var init, last := selected[..|selected| - 1], selected[|selected| - 1];
      SnapshotOfDecodable(init);
      assert Snapshot(selected) == Snapshot(Filter(init, Decodes)) + Excerpt(last);
      if Decodes(last) {
        SnapshotAppend(Filter(init, Decodes), [last]);
        assert [last][..0] == [];
        assert Snapshot([last]) == Snapshot([]) + Excerpt(last);
        assert Filter(selected, Decodes) == Filter(init, Decodes) + [last];
      } else {
        assert Excerpt(last) == "";
        assert Filter(selected, Decodes) == Filter(init, Decodes);
      }
    }
  }

  /** The excerpts that reach the summary: at most min(10, |sources|) of them,
      and, when the walk met no path twice, no path twice. */
  lemma ExcerptsBounded(sources: seq<Entry>, picks: seq<nat>)
    requires IsSampleIndices(picks, |sources|)
    ensures |Filter(Sample(sources, picks), Decodes)| <= Min(|sources|, MaxSamples)
    ensures NoDuplicates(Paths(sources)) ==> NoDuplicates(Paths(Filter(Sample(sources, picks), Decodes)))
  {
    SampleWithoutReplacement(sources, picks);
    if NoDuplicates(Paths(sources)) {
      FilterKeepsDistinctPaths(Sample(sources, picks), Decodes);
    }
  }

  lemma {:induction false} FilterKeepsDistinctPaths(files: seq<Entry>, keep: Entry -> bool)
    requires NoDuplicates(Paths(files))
    ensures NoDuplicates(Paths(Filter(files, keep)))
    decreases |files|
  {
    if files != [] {
      var init, last := files[..|files| - 1], files[|files| - 1];
      assert NoDuplicates(Paths(init)) by {
        forall i, j | 0 <= i < j < |init| ensures Paths(init)[i] != Paths(init)[j] {
          assert Paths(init)[i] == Paths(files)[i] && Paths(init)[j] == Paths(files)[j];
        }
      }
      FilterKeepsDistinctPaths(init, keep);
      var r := Filter(init, keep);
      if keep(last) {
        forall i | 0 <= i < |r| ensures r[i].path != last.path {
          var j :| 0 <= j < |init| && init[j] == r[i];
          assert Paths(files)[j] == r[i].path && Paths(files)[|files| - 1] == last.path;
        }
        var r' := r + [last];
        assert Filter(files, keep) == r';
        forall i, j | 0 <= i < j < |r'| ensures Paths(r')[i] != Paths(r')[j] {
          if j < |r| {
            assert Paths(r')[i] == Paths(r)[i] && Paths(r')[j] == Paths(r)[j];
          } else {
            assert Paths(r')[i] == r[i].path && Paths(r')[j] == last.path;
          }
        }
      } else {
        assert Filter(files, keep) == r;
      }
    }
  }

  /** The section labels, in the order the summary gives them. */
  const SectionLabels: seq<string> := [
    "README", "LICENSE", ".gitignore", "Git Commit", "Code Snapshot",
    "Test Files", "Binary Files", "Repo Size", "Total Files"
  ]

  /** A label in brackets, a colon, a newline, then the body, which may be empty. */
  function Section(title: string, body: string): string
  {
    "[" + title + "]:\n" + body
  }

  /** The reference layout: every label with its body, the sections separated by newlines. */
  function Layout(bodies: seq<string>): string
    requires |bodies| == |SectionLabels|
  {
    Join(Sections(bodies), "\n")
  }

  function Sections(bodies: seq<string>): (r: seq<string>)
    requires |bodies| == |SectionLabels|
    ensures |r| == |bodies|
  {
    seq(|bodies|, i requires 0 <= i < |bodies| => Section(SectionLabels[i], bodies[i]))
  }

  /** Adding the next section to a prefix of the layout. */
  lemma LayoutStep(b: seq<string>, k: nat, p: string, header: string)
    requires |b| == |SectionLabels| && 0 < k < |b|
    requires Join(Sections(b)[..k], "\n") == p
    requires header == "\n[" + SectionLabels[k] + "]:\n"
    ensures Join(Sections(b)[..k + 1], "\n") == p + header + b[k]
  {
    JoinSnoc(Sections(b), k, "\n");
  }

  /** The first three sections of the layout. */
  lemma LayoutFirstThree(b: seq<string>)
    requires |b| == |SectionLabels|
    ensures Join(Sections(b)[..3], "\n") == "[README]:\n" + b[0] + "\n[LICENSE]:\n" + b[1]
      + "\n[.gitignore]:\n" + b[2]
  {
    var s := Sections(b);
    assert s[..1] == [s[0]];
    var p := "[README]:\n" + b[0];
    assert Join(s[..1], "\n") == p;
    LayoutStep(b, 1, p, "\n[LICENSE]:\n");
    p := p + "\n[LICENSE]:\n" + b[1];
    LayoutStep(b, 2, p, "\n[.gitignore]:\n");
  }

  /** The first six sections of the layout. */
  lemma LayoutFirstSix(b: seq<string>)
    requires |b| == |SectionLabels|
    ensures Join(Sections(b)[..6], "\n") == "[README]:\n" + b[0] + "\n[LICENSE]:\n" + b[1]
      + "\n[.gitignore]:\n" + b[2] + "\n[Git Commit]:\n" + b[3]
      + "\n[Code Snapshot]:\n" + b[4] + "\n[Test Files]:\n" + b[5]
  {
    LayoutFirstThree(b);
    var p := "[README]:\n" + b[0] + "\n[LICENSE]:\n" + b[1]
      + "\n[.gitignore]:\n" + b[2];
    LayoutStep(b, 3, p, "\n[Git Commit]:\n");
    p := p + "\n[Git Commit]:\n" + b[3];
    LayoutStep(b, 4, p, "\n[Code Snapshot]:\n");
    p := p + "\n[Code Snapshot]:\n" + b[4];
    LayoutStep(b, 5, p, "\n[Test Files]:\n");
  }

  /** The layout written out: the nine sections in their fixed order, each label
      present whatever its body. */
  lemma LayoutSpelledOut(b: seq<string>)
    requires |b| == |SectionLabels|
    ensures Layout(b) == "[README]:\n" + b[0] + "\n[LICENSE]:\n" + b[1]
      + "\n[.gitignore]:\n" + b[2] + "\n[Git Commit]:\n" + b[3]
      + "\n[Code Snapshot]:\n" + b[4] + "\n[Test Files]:\n" + b[5]
      + "\n[Binary Files]:\n" + b[6] + "\n[Repo Size]:\n" + b[7]
      + "\n[Total Files]:\n" + b[8]
  {
    LayoutFirstSix(b);
    var p := "[README]:\n" + b[0] + "\n[LICENSE]:\n" + b[1]
      + "\n[.gitignore]:\n" + b[2] + "\n[Git Commit]:\n" + b[3]
      + "\n[Code Snapshot]:\n" + b[4] + "\n[Test Files]:\n" + b[5];
    LayoutStep(b, 6, p, "\n[Binary Files]:\n");
    p := p + "\n[Binary Files]:\n" + b[6];
    LayoutStep(b, 7, p, "\n[Repo Size]:\n");
    p := p + "\n[Repo Size]:\n" + b[7];
    LayoutStep(b, 8, p, "\n[Total Files]:\n");
    var s := Sections(b);
    assert s[..|s|] == s;
  }

  /** The bodies of the nine sections for a checkout and a draw of the sampler. */
  function SummaryBodies(repo: Repository, picks: seq<nat>): (bodies: seq<string>)
    requires IsSampleIndices(picks, |SourceFiles(repo.files)|)
    ensures |bodies| == |SectionLabels|
  {
    [ repo.readme, repo.license, repo.gitignore, repo.commitLog,
      Snapshot(Sample(SourceFiles(repo.files), picks)),
      Join(Paths(TestFiles(repo.files)), "\n"),
      Join(Paths(BinaryFiles(repo.files)), "\n"),
      repo.size,
      NatToDecimal(|CountedFiles(repo.files)|) ]
  }

  function SummaryText(repo: Repository, picks: seq<nat>): string
    requires IsSampleIndices(picks, |SourceFiles(repo.files)|)
  {
    Layout(SummaryBodies(repo, picks))
  }

  /** The summary of the source, built step by step as the source builds it: the
      source list, the sample, the code section, the three listings, then the text. */
  method GenerateRepoSummary(repo: Repository, picks: seq<nat>) returns (output: string)
    requires IsSampleIndices(picks, |SourceFiles(repo.files)|)
    ensures output == SummaryText(repo, picks)
  {
    var sourceFiles := Collect(repo.files, IsSampleCandidate);
    var selected := Sample(sourceFiles, picks);
    var codeContent := SnapshotContent(selected);
    var testFiles := Collect(repo.files, IsTestFile);
    var binaryFiles := Collect(repo.files, IsListedBinary);
    var totalFiles := Collect(repo.files, IsCounted);
    var numTotalFiles := |totalFiles|;

    output := "[README]:\n" + repo.readme + "\n[LICENSE]:\n" + repo.license
      + "\n[.gitignore]:\n" + repo.gitignore + "\n[Git Commit]:\n" + repo.commitLog
      + "\n[Code Snapshot]:\n" + codeContent + "\n[Test Files]:\n";
    output := output + Join(Paths(testFiles), "\n");
    output := output + "\n[Binary Files]:\n";
    output := output + Join(Paths(binaryFiles), "\n");
    output := output + "\n[Repo Size]:\n" + repo.size;
    output := output + "\n[Total Files]:\n" + NatToDecimal(numTotalFiles);
    LayoutSpelledOut(SummaryBodies(repo, picks));
  }

  /** An empty checkout still yields every label, each with an empty body, and a
      count of zero. */
  lemma EmptyRepositorySummary()
    ensures SummaryText(Repository([], "", "", "", "", ""), []) ==
      "[README]:\n" + "\n[LICENSE]:\n" + "\n[.gitignore]:\n" + "\n[Git Commit]:\n"
      + "\n[Code Snapshot]:\n" + "\n[Test Files]:\n" + "\n[Binary Files]:\n" + "\n[Repo Size]:\n"
      + "\n[Total Files]:\n" + "0"
  {
    var repo := Repository([], "", "", "", "", "");
    var bodies := SummaryBodies(repo, []);
    assert Sample(SourceFiles([]), []) == [];
    assert Paths(TestFiles([])) == [] && Paths(BinaryFiles([])) == [];
    assert NatToDecimal(0) == "0";
    assert bodies == ["", "", "", "", "", "", "", "", "0"];
    LayoutSpelledOut(bodies);
  }
}
