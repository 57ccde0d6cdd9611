/** Which files count as source code (by name) and which as binary (by content). */
module FileClassifier {
  import opened Sequences
  import opened Strings

  newtype byte = b: int | 0 <= b < 256

  /** The allowlist of source-code suffixes, in the source's order. Two adjacent
      string literals in the list are joined by the language into the single
      entry ".hpp.go", so ".go" on its own is missing; ".h" occurs twice. */
  const SourceCodeExtensions: seq<string> :=
    LeadingExtensions + [".hpp.go"] + NativeExtensions + ToolExtensions + WebExtensions

  const LeadingExtensions: seq<string> := [".py", ".rs", ".c", ".cpp", ".h"]
  const NativeExtensions: seq<string> := [
    ".vue", ".cs", ".ts", ".asm", ".bat", ".cc", ".cxx", ".h", ".h++", ".hh",
    ".hpp", ".hxx", ".inc", ".inl", ".cmake"
  ]
  const ToolExtensions: seq<string> := [
    ".cmake.in", ".css", ".coffee", ".lisp", ".cu", ".cuh", ".d", ".dart", ".diff",
    ".dockerfile", ".djs", ".dylan", ".emacs", ".em", ".emberscript"
  ]
  const WebExtensions: seq<string> := [
    ".es", ".escript", ".html", ".php", ".java", ".js", ".sjs", ".ssjs", ".ipynb",
    ".m", ".mm", ".swift", ".md", ".sh", ".rb"
  ]

  /** `any(name.endswith(ext) for ext in exts)`, checked in list order. */
  function EndsWithAny(name: string, exts: seq<string>): bool
    decreases |exts|
  {
    exts != [] && (EndsWith(name, exts[0]) || EndsWithAny(name, exts[1..]))
  }

  lemma {:induction false} EndsWithAnyIff(name: string, exts: seq<string>)
    ensures EndsWithAny(name, exts) <==> exists ext :: ext in exts && EndsWith(name, ext)
    decreases |exts|
  {
    if exts != [] {
      EndsWithAnyIff(name, exts[1..]);
      if EndsWithAny(name, exts[1..]) {
        var ext :| ext in exts[1..] && EndsWith(name, ext);
        assert ext in exts;
      }
      forall ext | ext in exts && EndsWith(name, ext) ensures EndsWithAny(name, exts) {
        if ext != exts[0] {
          assert ext in exts[1..];
        }
      }
    }
  }

  /** Classification by file name only; the content is never looked at. */
  predicate IsSourceCodeFile(name: string)
  {
    EndsWithAny(name, SourceCodeExtensions)
  }

  /** A name is source code exactly when some allowlist entry is a suffix of it. */
  lemma IsSourceCodeFileIff(name: string)
    ensures IsSourceCodeFile(name) <==> exists ext :: ext in SourceCodeExtensions && EndsWith(name, ext)
  {
    EndsWithAnyIff(name, SourceCodeExtensions);
  }

  lemma {:induction false} EndsWithAnyAppend(name: string, a: seq<string>, b: seq<string>)
    ensures EndsWithAny(name, a + b) == (EndsWithAny(name, a) || EndsWithAny(name, b))
    decreases |a|
  {
    if a == [] {
      assert a + b == b;
    } else {
      assert (a + b)[1..] == a[1..] + b;
      EndsWithAnyAppend(name, a[1..], b);
    }
  }

  /** No entry of `exts` ends in the character `c`. */
  predicate NoneEndsIn(exts: seq<string>, c: char)
  {
    forall i :: 0 <= i < |exts| ==> exts[i] != [] && exts[i][|exts[i]| - 1] != c
  }

  /** A name ending in `c` matches no entry that ends in another character. */
  lemma {:induction false} NoMatchWhenLastCharDiffers(name: string, exts: seq<string>, c: char)
    requires name != [] && name[|name| - 1] == c && NoneEndsIn(exts, c)
    ensures !EndsWithAny(name, exts)
    decreases |exts|
  {
    if exts != [] {
      assert NoneEndsIn(exts[1..], c) by {
        forall i | 0 <= i < |exts[1..]| ensures exts[1..][i] != [] && exts[1..][i][|exts[1..][i]| - 1] != c {
          assert exts[1..][i] == exts[i + 1];
        }
      }
      NoMatchWhenLastCharDiffers(name, exts[1..], c);
    }
  }

  lemma LeadingEndNotInO() ensures NoneEndsIn(LeadingExtensions, 'o') {}
  lemma NativeEndNotInO() ensures NoneEndsIn(NativeExtensions, 'o') {}
  lemma ToolEndNotInO() ensures NoneEndsIn(ToolExtensions, 'o') {}
  lemma WebEndNotInO() ensures NoneEndsIn(WebExtensions, 'o') {}

  /** A Go file is not source code unless its name happens to end in ".hpp.go":
      that is the only allowlist entry ending in 'o'. */
  lemma GoFilesAreNotSourceCode(name: string)
    requires EndsWith(name, ".go") && !EndsWith(name, ".hpp.go")
    ensures !IsSourceCodeFile(name)
  {
    assert name[|name| - 1] == 'o' by {
      assert name[|name| - 3..][2] == name[|name| - 1];
    }
    LeadingEndNotInO();
    NativeEndNotInO();
    ToolEndNotInO();
    WebEndNotInO();
    NoMatchWhenLastCharDiffers(name, LeadingExtensions, 'o');
    NoMatchWhenLastCharDiffers(name, NativeExtensions, 'o');
    NoMatchWhenLastCharDiffers(name, ToolExtensions, 'o');
    NoMatchWhenLastCharDiffers(name, WebExtensions, 'o');
    assert !EndsWithAny(name, [".hpp.go"]);
    EndsWithAnyAppend(name, LeadingExtensions, [".hpp.go"]);
    EndsWithAnyAppend(name, LeadingExtensions + [".hpp.go"], NativeExtensions);
    EndsWithAnyAppend(name, LeadingExtensions + [".hpp.go"] + NativeExtensions, ToolExtensions);
    EndsWithAnyAppend(name, LeadingExtensions + [".hpp.go"] + NativeExtensions + ToolExtensions, WebExtensions);
  }

  /** The allowlist test, taken one part of the list at a time. */
  lemma IsSourceCodeFileByParts(name: string)
    ensures IsSourceCodeFile(name) == (EndsWithAny(name, LeadingExtensions) || EndsWith(name, ".hpp.go")
      || EndsWithAny(name, NativeExtensions) || EndsWithAny(name, ToolExtensions)
      || EndsWithAny(name, WebExtensions))
  {
    assert EndsWithAny(name, [".hpp.go"]) == EndsWith(name, ".hpp.go");
    EndsWithAnyAppend(name, LeadingExtensions, [".hpp.go"]);
    EndsWithAnyAppend(name, LeadingExtensions + [".hpp.go"], NativeExtensions);
    EndsWithAnyAppend(name, LeadingExtensions + [".hpp.go"] + NativeExtensions, ToolExtensions);
    EndsWithAnyAppend(name, LeadingExtensions + [".hpp.go"] + NativeExtensions + ToolExtensions, WebExtensions);
  }

  lemma GoExample()
    ensures !IsSourceCodeFile("main.go")
  {
    GoFilesAreNotSourceCode("main.go");
  }

  lemma JoinedEntryExample()
    ensures IsSourceCodeFile("lib.hpp.go")
  {
    JoinedEntryMatches("lib.hpp.go");
  }

  // Pinning the name with `requires` rather than writing the literal in the
  // body keeps the solver from unfolding the allowlist test on the literal.
  lemma JoinedEntryMatches(name: string)
    requires name == "lib" + ".hpp.go"
    ensures IsSourceCodeFile(name)
  {
    assert name[|name| - 7..] == ".hpp.go";
    IsSourceCodeFileByParts(name);
  }

  /** Every Markdown file passes the allowlist, README.md included. */
  lemma MarkdownIsSourceCode(name: string)
    requires EndsWith(name, ".md")
    ensures IsSourceCodeFile(name)
  {
    assert SourceCodeExtensions[48] == ".md";
    EndsWithAnyIff(name, SourceCodeExtensions);
  }

  /** How many leading bytes the binary sniff reads. */
  const SniffLength: nat := 1024

  /** `b"\0" in f.read(1024)`: a null byte among the first 1024 bytes. */
  predicate IsBinaryFile(content: seq<byte>)
  {
    0 in content[..Min(SniffLength, |content|)]
  }

  /** Bytes after the first 1024 never change the verdict. */
  lemma BinarySniffIgnoresTail(content: seq<byte>, more: seq<byte>)
    requires |content| >= SniffLength
    ensures IsBinaryFile(content + more) == IsBinaryFile(content)
  {
    assert (content + more)[..SniffLength] == content[..SniffLength];
  }
}
