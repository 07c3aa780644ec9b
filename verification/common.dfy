/**
  The text templates and output paths shared by the collector: the header
  prepended to every instrumented program, the branch-flag declaration and
  assignment statements, the global function-pointer declaration, and the
  paths of the files written under `out/`.
 */
module Common {
  import opened Text

  const OutDir: string := "out/"

  /** Path of the compiled instrumented executable. */
  function ExeOut(filename: string): string {
    OutDir + filename + ".modified.out"
  }

  /** Path of the instrumented C source. */
  function ModifiedProgramOut(filename: string): string {
    OutDir + filename + ".modified.c"
  }

  /** Path of the compiled, uninstrumented executable. */
  function OriginalExeOut(filename: string): string {
    OutDir + filename + ".original.out"
  }

  /** If two strings with a common suffix are equal, the parts before the suffix are equal. */
  lemma SamePrefixBeforeSuffix(a: string, b: string, suffix: string)
    requires a + suffix == b + suffix
    ensures a == b
  {
    assert |a| == |b|;
    assert a == (a + suffix)[..|a|];
    assert b == (b + suffix)[..|b|];
  }

  /**
    The three output files of a run never collide, whatever the two input file
    names are, and each of them determines the input file name.
   */
  lemma OutputPathsDistinct(f: string, g: string)
    ensures ExeOut(f) != ModifiedProgramOut(g)
    ensures ExeOut(f) != OriginalExeOut(g)
    ensures ModifiedProgramOut(f) != OriginalExeOut(g)
    ensures ExeOut(f) == ExeOut(g) ==> f == g
    ensures ModifiedProgramOut(f) == ModifiedProgramOut(g) ==> f == g
    ensures OriginalExeOut(f) == OriginalExeOut(g) ==> f == g
  {
    var e, m, o := ExeOut(f), ModifiedProgramOut(g), OriginalExeOut(g);
    assert e[|e| - 1] == 't' && m[|m| - 1] == 'c';
    assert ModifiedProgramOut(f)[|ModifiedProgramOut(f)| - 1] == 'c' && o[|o| - 1] == 't';
    assert e[|e| - 12] == 'm' && o[|o| - 12] == 'o';
    if ExeOut(f) == ExeOut(g) {
      SamePrefixBeforeSuffix(OutDir + f, OutDir + g, ".modified.out");
      assert f == (OutDir + f)[4..] && g == (OutDir + g)[4..];
    }
    if ModifiedProgramOut(f) == ModifiedProgramOut(g) {
      SamePrefixBeforeSuffix(OutDir + f, OutDir + g, ".modified.c");
      assert f == (OutDir + f)[4..] && g == (OutDir + g)[4..];
    }
    if OriginalExeOut(f) == OriginalExeOut(g) {
      SamePrefixBeforeSuffix(OutDir + f, OutDir + g, ".original.out");
      assert f == (OutDir + f)[4..] && g == (OutDir + g)[4..];
    }
  }

  /** The three lines of the header: the stdio include and the two logging macros. */
  const HeaderLines: seq<string> := [
    "#include <stdio.h>",
    "#define LOG(BP) printf(\"%s\\n\", BP);",
    "#define LOG_PTR(PTR) printf(\"func_%p\\n\", PTR);"
  ]

  /** Text written at the top of every instrumented program. */
  const TransformHeader: string := Unlines(HeaderLines)

  /**
    The header starts with the stdio include the logging macros need, and
    ends with a newline, so the program's first line stays a line of its own.
   */
  lemma TransformHeaderFramesProgram()
    ensures |TransformHeader| > 0 && TransformHeader[|TransformHeader| - 1] == '\n'
    ensures StartsWith(TransformHeader, "#include <stdio.h>\n")
  {
    assert TransformHeader == HeaderLines[0] + "\n" + Unlines(HeaderLines[1..]);
    assert Unlines(HeaderLines[1..]) == HeaderLines[1] + "\n" + Unlines(HeaderLines[2..]);
    assert Unlines(HeaderLines[2..]) == HeaderLines[2] + "\n" + Unlines(HeaderLines[3..]);
    assert Unlines(HeaderLines[3..]) == "";
  }

  /** The identifier of branch flag `k`. */
  function FlagName(k: nat): string {
    "BRANCH_" + NatToString(k)
  }

  /** `DECLARE_BRANCH(k)`: declares flag k, initially 0. */
  function DeclareBranch(k: nat): string {
    "int " + FlagName(k) + " = 0;\n"
  }

  /** `SET_BRANCH(k)`: sets flag k to 1. */
  function SetBranch(k: nat): string {
    FlagName(k) + " = 1;\n"
  }

  lemma FlagNameInjective(j: nat, k: nat)
    requires FlagName(j) == FlagName(k)
    ensures j == k
  {
    assert NatToString(j) == FlagName(j)[7..];
    assert NatToString(k) == FlagName(k)[7..];
    NatToStringInjective(j, k);
  }

  /**
    The identifier declared by `DECLARE_BRANCH(j)` is the identifier assigned by
    `SET_BRANCH(k)` exactly when j == k.
   */
  lemma DeclaredFlagIsSetFlag(j: nat, k: nat)
    ensures DeclareBranch(j)[4 .. |DeclareBranch(j)| - 6] == SetBranch(k)[.. |SetBranch(k)| - 6] <==> j == k
  {
    var d, s := DeclareBranch(j), SetBranch(k);
    assert d[4 .. |d| - 6] == FlagName(j);
    assert s[.. |s| - 6] == FlagName(k);
    if FlagName(j) == FlagName(k) {
      FlagNameInjective(j, k);
    }
  }

  /** `WRITE_LINE(line)`: the line followed by exactly one newline. */
  function WriteLine(line: string): (s: string)
    ensures |s| == |line| + 1 && s[..|line|] == line && s[|line|] == '\n'
  {
    line + "\n"
  }

  /** Name of the global pointer that the instrumentation declares for a function. */
  function PtrSymbol(name: string): string {
    name + "_PTR"
  }

  /** `DECLARE_FUNC_PTR(f)`: `<type> *<name>_PTR = &<name>;` and a newline. */
  function DeclareFuncPtr(returnType: string, name: string): string {
    returnType + " *" + PtrSymbol(name) + " = &" + name + ";\n"
  }
}
