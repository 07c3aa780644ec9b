/**
  Removing the `#include` lines before the file is parsed and putting them back
  afterwards. Files are modelled as their sequence of lines (what successive
  `getline` calls return); line numbers are 1-based.
 */
module Includes {
  import opened Text

  const IncludeStr: string := "#include"

  /** `line.find("#include") == 0`. */
  predicate IsIncludeLine(line: string) {
    StartsWith(line, IncludeStr)
  }

  /** The parsed-file lines and the directives taken out, keyed by their original line number. */
  datatype Stripped = Stripped(kept: seq<string>, directives: map<nat, string>)

  /** Number of include lines in a file, counted independently of the stripping loop. */
  function CountIncludes(lines: seq<string>): nat {
    if lines == [] then 0 else (if IsIncludeLine(lines[0]) then 1 else 0) + CountIncludes(lines[1..])
  }

  /** The lines that are not include lines, in their original order. */
  function NonIncludes(lines: seq<string>): seq<string> {
    if lines == [] then []
    else if IsIncludeLine(lines[|lines| - 1]) then NonIncludes(lines[..|lines| - 1])
    else NonIncludes(lines[..|lines| - 1]) + [lines[|lines| - 1]]
  }

  /** Filtering a line and then the rest is filtering the whole. */
  lemma {:induction false} NonIncludesCons(x: string, tail: seq<string>)
    ensures NonIncludes([x] + tail) == (if IsIncludeLine(x) then [] else [x]) + NonIncludes(tail)
    decreases |tail|
  {
    if tail != [] {
      var init := tail[..|tail| - 1];
      NonIncludesCons(x, init);
      assert ([x] + tail)[..|tail|] == [x] + init;
      assert tail == init + [tail[|tail| - 1]];
    }
  }

  /**
    The stripping loop from the line numbered `lineNum` on: an include line is
    recorded under its number, every other line is kept.
   */
  function StripFrom(lines: seq<string>, lineNum: nat): (r: Stripped)
    ensures forall n :: n in r.directives ==> lineNum <= n < lineNum + |lines|
    ensures forall i :: 0 <= i < |lines| ==> (lineNum + i in r.directives <==> IsIncludeLine(lines[i]))
    ensures forall i :: 0 <= i < |lines| && lineNum + i in r.directives ==> r.directives[lineNum + i] == lines[i]
    ensures forall j :: 0 <= j < |r.kept| ==> !IsIncludeLine(r.kept[j])
    ensures r.kept == NonIncludes(lines)
    decreases |lines|
  {
    if lines == [] then Stripped([], map[])
    else
      var rest := StripFrom(lines[1..], lineNum + 1);
      NonIncludesCons(lines[0], lines[1..]);
      assert [lines[0]] + lines[1..] == lines;
      if IsIncludeLine(lines[0]) then
        Stripped(rest.kept, rest.directives[lineNum := lines[0]])
      else
        Stripped([lines[0]] + rest.kept, rest.directives)
  }

  /** Every line is either kept or recorded as a directive, and the directives are the include lines. */
  lemma {:induction false} StripFromCounts(lines: seq<string>, lineNum: nat)
    ensures |StripFrom(lines, lineNum).directives| == CountIncludes(lines)
    ensures |StripFrom(lines, lineNum).kept| + |StripFrom(lines, lineNum).directives| == |lines|
    decreases |lines|
  {
    if lines != [] {
      StripFromCounts(lines[1..], lineNum + 1);
      var rest := StripFrom(lines[1..], lineNum + 1);
      assert lineNum !in rest.directives;
    }
  }

  /** A final non-include line is the final kept line. */
  lemma {:induction false} StripFromKeepsLast(lines: seq<string>, lineNum: nat)
    requires lines != [] && !IsIncludeLine(lines[|lines| - 1])
    ensures StripFrom(lines, lineNum).kept != []
    ensures StripFrom(lines, lineNum).kept[|StripFrom(lines, lineNum).kept| - 1] == lines[|lines| - 1]
    decreases |lines|
  {
    if |lines| > 1 {
      StripFromKeepsLast(lines[1..], lineNum + 1);
    }
  }

  /** `removeIncludeDirectives`: strip a whole file, numbering its lines from 1. */
  function RemoveIncludeDirectives(lines: seq<string>): Stripped
  {
    StripFrom(lines, 1)
  }

  /** `getNumIncludeDirectives`: the number of directives recorded. */
  function NumIncludeDirectives(s: Stripped): nat {
    |s.directives|
  }

  /** The include count is the number of `#include` lines of the original file. */
  lemma NumIncludeDirectivesCountsIncludeLines(lines: seq<string>)
    ensures NumIncludeDirectives(RemoveIncludeDirectives(lines)) == CountIncludes(lines)
  {
    StripFromCounts(lines, 1);
  }

  function KeysFrom(directives: map<nat, string>, lineNum: nat): set<nat> {
    set n | n in directives && n >= lineNum
  }

  lemma KeysFromShrinks(directives: map<nat, string>, lineNum: nat)
    requires lineNum in directives
    ensures |KeysFrom(directives, lineNum + 1)| < |KeysFrom(directives, lineNum)|
  {
    var a, b := KeysFrom(directives, lineNum + 1), KeysFrom(directives, lineNum);
    assert b == a + {lineNum};
  }

  /**
    The inner `while` of the reinsertion loop: the directives recorded at
    `lineNum`, `lineNum + 1`, ... up to the first number without one.
   */
  function Run(directives: map<nat, string>, lineNum: nat): (r: seq<string>)
    ensures lineNum !in directives <==> r == []
    ensures r != [] ==> r[0] == directives[lineNum]
    decreases |KeysFrom(directives, lineNum)|
  {
    if lineNum in directives then
      KeysFromShrinks(directives, lineNum);
      [directives[lineNum]] + Run(directives, lineNum + 1)
    else []
  }

  /**
    `reInsertIncludeDirectives` as written: after a run of directives the current
    line is written without advancing the line counter, so the counter lags by one.
   */
  function ReinsertFromAsWritten(kept: seq<string>, directives: map<nat, string>, lineNum: nat): seq<string>
    decreases |kept|
  {
    if kept == [] then []
    else if lineNum in directives then
      var run := Run(directives, lineNum);
      run + [kept[0]] + ReinsertFromAsWritten(kept[1..], directives, lineNum + |run|)
    else
      [kept[0]] + ReinsertFromAsWritten(kept[1..], directives, lineNum + 1)
  }

  function ReinsertIncludeDirectivesAsWritten(s: Stripped): seq<string> {
    ReinsertFromAsWritten(s.kept, s.directives, 1)
  }

  /** The reinsertion loop with the counter also advanced past the line written after a run. */
  function ReinsertFrom(kept: seq<string>, directives: map<nat, string>, lineNum: nat): seq<string>
    decreases |kept|
  {
    if kept == [] then []
    else if lineNum in directives then
      var run := Run(directives, lineNum);
      run + [kept[0]] + ReinsertFrom(kept[1..], directives, lineNum + |run| + 1)
    else
      [kept[0]] + ReinsertFrom(kept[1..], directives, lineNum + 1)
  }

  function ReinsertIncludeDirectives(s: Stripped): seq<string> {
    ReinsertFrom(s.kept, s.directives, 1)
  }

  /** `m` holds the same directives as `s` at every line number from `lineNum` on. */
  predicate AgreeFrom(m: map<nat, string>, s: map<nat, string>, lineNum: nat) {
    && (forall n :: n in s && n >= lineNum ==> n in m && m[n] == s[n])
    && (forall n :: n in m && n >= lineNum ==> n in s)
  }

  /** With a directive at `lineNum`, reinsertion from `lineNum` is that directive followed by reinsertion from the next number. */
  lemma ReinsertFromShift(kept: seq<string>, m: map<nat, string>, lineNum: nat)
    requires kept != [] && lineNum in m
    ensures ReinsertFrom(kept, m, lineNum) == [m[lineNum]] + ReinsertFrom(kept, m, lineNum + 1)
  {
    var run := Run(m, lineNum + 1);
    var rest := ReinsertFrom(kept[1..], m, lineNum + 1 + |run| + 1);
    RunCons(m, lineNum);
    assert lineNum + |Run(m, lineNum)| + 1 == lineNum + 1 + |run| + 1;
    ReinsertFromAt(kept, m, lineNum);
    assert ReinsertFrom(kept, m, lineNum) == [m[lineNum]] + run + [kept[0]] + rest;
    if lineNum + 1 in m {
      ReinsertFromAt(kept, m, lineNum + 1);
    } else {
      ReinsertFromPlain(kept, m, lineNum + 1);
    }
  }

  lemma RunCons(m: map<nat, string>, lineNum: nat)
    requires lineNum in m
    ensures Run(m, lineNum) == [m[lineNum]] + Run(m, lineNum + 1)
  {
  }

  lemma ReinsertFromAt(kept: seq<string>, m: map<nat, string>, lineNum: nat)
    requires kept != [] && lineNum in m
    ensures ReinsertFrom(kept, m, lineNum)
            == Run(m, lineNum) + [kept[0]] + ReinsertFrom(kept[1..], m, lineNum + |Run(m, lineNum)| + 1)
  {
  }

  lemma ReinsertFromPlain(kept: seq<string>, m: map<nat, string>, lineNum: nat)
    requires kept != [] && lineNum !in m
    ensures ReinsertFrom(kept, m, lineNum) == [kept[0]] + ReinsertFrom(kept[1..], m, lineNum + 1)
  {
  }

  lemma AgreeFromTail(m: map<nat, string>, lines: seq<string>, lineNum: nat)
    requires lines != []
    requires AgreeFrom(m, StripFrom(lines, lineNum).directives, lineNum)
    ensures AgreeFrom(m, StripFrom(lines[1..], lineNum + 1).directives, lineNum + 1)
    ensures lineNum in m <==> IsIncludeLine(lines[0])
    ensures lineNum in m ==> m[lineNum] == lines[0]
  {
    assert lineNum + 0 in StripFrom(lines, lineNum).directives <==> IsIncludeLine(lines[0]);
  }

  lemma {:induction false} ReinsertInvertsStripFrom(lines: seq<string>, lineNum: nat, m: map<nat, string>)
    requires lines != [] ==> !IsIncludeLine(lines[|lines| - 1])
    requires AgreeFrom(m, StripFrom(lines, lineNum).directives, lineNum)
    ensures ReinsertFrom(StripFrom(lines, lineNum).kept, m, lineNum) == lines
    decreases |lines|
  {
    if lines != [] {
      var tail := lines[1..];
      AgreeFromTail(m, lines, lineNum);
      var kept := StripFrom(tail, lineNum + 1).kept;
      if tail != [] {
        assert tail[|tail| - 1] == lines[|lines| - 1];
      }
      ReinsertInvertsStripFrom(tail, lineNum + 1, m);
      StripFromCons(lines, lineNum);
      if IsIncludeLine(lines[0]) {
        StripFromKeepsLast(tail, lineNum + 1);
      }
      ReinsertStep(lines[0], kept, tail, m, lineNum);
      assert lines == [lines[0]] + tail;
    }
  }

  /** Reinsertion from `lineNum` puts back line `x`, whether it was a directive or a kept line. */
  lemma ReinsertStep(x: string, kept: seq<string>, tail: seq<string>, m: map<nat, string>, lineNum: nat)
    requires ReinsertFrom(kept, m, lineNum + 1) == tail
    requires lineNum in m ==> kept != [] && m[lineNum] == x
    ensures ReinsertFrom(if lineNum in m then kept else [x] + kept, m, lineNum) == [x] + tail
  {
    if lineNum in m {
      ReinsertFromShift(kept, m, lineNum);
    } else {
      ReinsertPlainStep(x, kept, m, lineNum);
    }
  }

  /** One step of the stripping loop, as seen by the lines it keeps. */
  lemma StripFromCons(lines: seq<string>, lineNum: nat)
    requires lines != []
    ensures StripFrom(lines, lineNum).kept
            == if IsIncludeLine(lines[0]) then StripFrom(lines[1..], lineNum + 1).kept
               else [lines[0]] + StripFrom(lines[1..], lineNum + 1).kept
  {
  }

  /** Without a directive at `lineNum`, the next kept line is written as it is. */
  lemma ReinsertPlainStep(x: string, kept: seq<string>, m: map<nat, string>, lineNum: nat)
    requires lineNum !in m
    ensures ReinsertFrom([x] + kept, m, lineNum) == [x] + ReinsertFrom(kept, m, lineNum + 1)
  {
    assert ([x] + kept)[1..] == kept;
  }

  /**
    Putting the directives back restores the original file whenever its last
    line is not itself an include (includes may appear anywhere before it).
   */
  lemma ReinsertInvertsRemove(lines: seq<string>)
    requires lines != [] ==> !IsIncludeLine(lines[|lines| - 1])
    ensures ReinsertIncludeDirectives(RemoveIncludeDirectives(lines)) == lines
  {
    ReinsertInvertsStripFrom(lines, 1, StripFrom(lines, 1).directives);
  }

  lemma {:induction false} AsWrittenPastLastDirective(kept: seq<string>, m: map<nat, string>, lineNum: nat)
    requires forall n :: n in m ==> n < lineNum
    ensures ReinsertFromAsWritten(kept, m, lineNum) == kept
    decreases |kept|
  {
    if kept != [] {
      AsWrittenPastLastDirective(kept[1..], m, lineNum + 1);
      assert kept == [kept[0]] + kept[1..];
    }
  }

  lemma {:induction false} StripAllKept(lines: seq<string>, lineNum: nat)
    requires forall i :: 0 <= i < |lines| ==> !IsIncludeLine(lines[i])
    ensures StripFrom(lines, lineNum) == Stripped(lines, map[])
    decreases |lines|
  {
    if lines != [] {
      StripAllKept(lines[1..], lineNum + 1);
      assert lines == [lines[0]] + lines[1..];
    }
  }

  lemma {:induction false} StripLeadingBlock(lines: seq<string>, a: nat, lineNum: nat)
    requires a <= |lines|
    requires forall i :: 0 <= i < a ==> IsIncludeLine(lines[i])
    requires forall i :: a <= i < |lines| ==> !IsIncludeLine(lines[i])
    ensures StripFrom(lines, lineNum).kept == lines[a..]
    decreases a
  {
    if a == 0 {
      StripAllKept(lines, lineNum);
    } else {
      StripLeadingBlock(lines[1..], a - 1, lineNum + 1);
      assert lines[1..][a - 1..] == lines[a..];
    }
  }

  lemma {:induction false} RunOfBlock(lines: seq<string>, a: nat, m: map<nat, string>, n: nat)
    requires 1 <= n <= a + 1 && a <= |lines|
    requires forall k :: k in m <==> 1 <= k <= a
    requires forall k :: k in m ==> m[k] == lines[k - 1]
    ensures Run(m, n) == lines[n - 1 .. a]
    decreases a + 1 - n
  {
    if n <= a {
      RunOfBlock(lines, a, m, n + 1);
    }
  }

  /**
    The reinsertion as written does restore a file whose includes form one
    leading block followed by at least one other line.
   */
  lemma AsWrittenRestoresLeadingBlock(lines: seq<string>, a: nat)
    requires a < |lines|
    requires forall i :: 0 <= i < a ==> IsIncludeLine(lines[i])
    requires forall i :: a <= i < |lines| ==> !IsIncludeLine(lines[i])
    ensures ReinsertIncludeDirectivesAsWritten(RemoveIncludeDirectives(lines)) == lines
  {
    var s := StripFrom(lines, 1);
    LeadingBlockStripped(lines, a);
    if a == 0 {
      AsWrittenPastLastDirective(s.kept, s.directives, 1);
    } else {
      AsWrittenLeadingRun(lines, a, s.directives, s.kept);
    }
  }

  /** With directives exactly at lines 1..a, the first kept line brings back the whole block before it. */
  lemma AsWrittenLeadingRun(lines: seq<string>, a: nat, m: map<nat, string>, kept: seq<string>)
    requires 0 < a < |lines| && kept == lines[a..]
    requires forall k :: k in m <==> 1 <= k <= a
    requires forall k :: k in m ==> m[k] == lines[k - 1]
    ensures ReinsertFromAsWritten(kept, m, 1) == lines
  {
    RunOfBlock(lines, a, m, 1);
    AsWrittenPastLastDirective(kept[1..], m, 1 + a);
    AsWrittenSplice(lines, a, m, kept);
  }

  /** The first kept line goes right after the leading run, and the rest follow unchanged. */
  lemma AsWrittenSplice(lines: seq<string>, a: nat, m: map<nat, string>, kept: seq<string>)
    requires 0 < a < |lines| && kept == lines[a..] && 1 in m
    requires Run(m, 1) == lines[..a]
    requires ReinsertFromAsWritten(kept[1..], m, 1 + a) == kept[1..]
    ensures ReinsertFromAsWritten(kept, m, 1) == lines
  {
    AsWrittenAt(kept, m, 1);
    assert lines == lines[..a] + [kept[0]] + kept[1..];
  }

  lemma AsWrittenAt(kept: seq<string>, m: map<nat, string>, lineNum: nat)
    requires kept != [] && lineNum in m
    ensures ReinsertFromAsWritten(kept, m, lineNum)
            == Run(m, lineNum) + [kept[0]] + ReinsertFromAsWritten(kept[1..], m, lineNum + |Run(m, lineNum)|)
  {
  }

  /** Stripping a file whose includes form one leading block of `a` lines. */
  lemma LeadingBlockStripped(lines: seq<string>, a: nat)
    requires a < |lines|
    requires forall i :: 0 <= i < a ==> IsIncludeLine(lines[i])
    requires forall i :: a <= i < |lines| ==> !IsIncludeLine(lines[i])
    ensures StripFrom(lines, 1).kept == lines[a..]
    ensures forall k :: k in StripFrom(lines, 1).directives <==> 1 <= k <= a
    ensures forall k :: k in StripFrom(lines, 1).directives ==> StripFrom(lines, 1).directives[k] == lines[k - 1]
  {
    var s := StripFrom(lines, 1);
    StripLeadingBlock(lines, a, 1);
    forall k | k in s.directives
      ensures 1 <= k <= a && s.directives[k] == lines[k - 1]
    {
      assert IsIncludeLine(lines[k - 1]);
    }
    forall k | 1 <= k <= a
      ensures k in s.directives
    {
      assert IsIncludeLine(lines[k - 1]);
    }
  }

  /**
    A file with a second include after ordinary code: the reinsertion as written
    puts that include one line too late, while the corrected loop restores the file.
   */
  lemma AsWrittenMisplacesLaterInclude()
    ensures var lines := ["#include <a.h>", "int x;", "#include <b.h>", "int y;", "int z;"];
            && ReinsertIncludeDirectivesAsWritten(RemoveIncludeDirectives(lines))
               == ["#include <a.h>", "int x;", "int y;", "#include <b.h>", "int z;"]
            && ReinsertIncludeDirectivesAsWritten(RemoveIncludeDirectives(lines)) != lines
            && ReinsertIncludeDirectives(RemoveIncludeDirectives(lines)) == lines
  {
    var lines := ["#include <a.h>", "int x;", "#include <b.h>", "int y;", "int z;"];
    var s := RemoveIncludeDirectives(lines);
    ExampleStripped();
    var m := s.directives;
    assert Run(m, 1) == [lines[0]] by {
      assert 2 !in m;
    }
    assert Run(m, 3) == [lines[2]] by {
      assert 4 !in m;
    }
    assert ReinsertFromAsWritten(s.kept, m, 1) == [lines[0], lines[1], lines[3], lines[2], lines[4]] by {
      assert ReinsertFromAsWritten([lines[4]], m, 3) == [lines[2], lines[4]];
      assert ReinsertFromAsWritten([lines[3], lines[4]], m, 2) == [lines[3], lines[2], lines[4]];
    }
    ReinsertInvertsRemove(lines);
  }

  lemma ExampleStripped()
    ensures var lines := ["#include <a.h>", "int x;", "#include <b.h>", "int y;", "int z;"];
            var s := RemoveIncludeDirectives(lines);
            s.directives == map[1 := lines[0], 3 := lines[2]] && s.kept == [lines[1], lines[3], lines[4]]
  {
    var lines := ["#include <a.h>", "int x;", "#include <b.h>", "int y;", "int z;"];
    assert IsIncludeLine(lines[0]) && IsIncludeLine(lines[2]);
    assert !IsIncludeLine(lines[1]) && !IsIncludeLine(lines[3]) && !IsIncludeLine(lines[4]);
    var s := RemoveIncludeDirectives(lines);
    assert s.directives.Keys == {1, 3} by {
      forall k | k in s.directives ensures k == 1 || k == 3 {
        assert IsIncludeLine(lines[k - 1]);
      }
    }
    assert s.kept == [lines[1], lines[3], lines[4]];
  }
}
