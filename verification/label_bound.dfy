/** The size bound of a label log: whole lines are evicted oldest first until the file fits. */
module LabelBound {
  /** The lines of a file, the last one whether or not it is ended. */
  function Split(raw: string): (lines: seq<string>)
    ensures lines != []
  {
    if raw == "" then [""]
    else
      var rest := Split(raw[1..]);
      if raw[0] == '\n' then [""] + rest else [[raw[0]] + rest[0]] + rest[1..]
  }

  function NonEmpty(lines: seq<string>): seq<string> {
    if lines == [] then []
    else if lines[0] == "" then NonEmpty(lines[1..]) else [lines[0]] + NonEmpty(lines[1..])
  }

  /** The lines the eviction looks at. */
  function Lines(raw: string): seq<string> {
    NonEmpty(Split(raw))
  }

  /** A file of these lines. */
  function Text(lines: seq<string>): string {
    if lines == [] then "" else lines[0] + "\n" + Text(lines[1..])
  }

  function Cost(lines: seq<string>): nat {
    if lines == [] then 0 else |lines[0]| + 1 + Cost(lines[1..])
  }

  predicate Proper(line: string) {
    line != "" && '\n' !in line
  }

  lemma {:induction false} SplitHasNoBreaks(raw: string)
    ensures forall l <- Split(raw) :: '\n' !in l
  {
    if raw != "" {
      SplitHasNoBreaks(raw[1..]);
    }
  }

  lemma {:induction false} NonEmptyMembers(lines: seq<string>)
    ensures forall l :: l in NonEmpty(lines) <==> l in lines && l != ""
  {
    if lines != [] {
      assert lines == [lines[0]] + lines[1..];
      NonEmptyMembers(lines[1..]);
    }
  }

  lemma LinesAreProper(raw: string)
    ensures forall l <- Lines(raw) :: Proper(l)
  {
    SplitHasNoBreaks(raw);
    NonEmptyMembers(Split(raw));
  }

  lemma {:induction false} TextLength(lines: seq<string>)
    ensures |Text(lines)| == Cost(lines)
  {
    if lines != [] {
      TextLength(lines[1..]);
    }
  }

  lemma {:induction false} SplitOneLine(line: string, rest: string)
    requires '\n' !in line
    ensures Split(line + "\n" + rest) == [line] + Split(rest)
  {
    var whole := line + "\n" + rest;
    if line == "" {
      assert whole[1..] == rest;
    } else {
      assert line[0] in line && whole[1..] == line[1..] + "\n" + rest;
      SplitOneLine(line[1..], rest);
      assert [line[0]] + line[1..] == line;
    }
  }

  /** What is written is read back line for line. */
  lemma {:induction false} TextReadsBack(lines: seq<string>)
    requires forall l <- lines :: Proper(l)
    ensures Lines(Text(lines)) == lines
  {
    if lines != [] {
      assert lines[0] in lines;
      SplitOneLine(lines[0], Text(lines[1..]));
      TextReadsBack(lines[1..]);
    }
  }

  /** A last line that is not ended is a line all the same. */
  lemma {:induction false} UnendedLine(lines: seq<string>, last: string)
    requires Proper(last) && forall l <- lines :: Proper(l)
    ensures Lines(Text(lines) + last) == lines + [last]
  {
    if lines == [] {
      assert "" + last == last;
      SplitUnended(last);
      assert NonEmpty([last]) == [last] + NonEmpty([]);
    } else {
      var rest := Text(lines[1..]) + last;
      assert lines[0] in lines;
      assert Text(lines) + last == lines[0] + "\n" + rest;
      SplitOneLine(lines[0], rest);
      UnendedLine(lines[1..], last);
      assert [lines[0]] + (lines[1..] + [last]) == lines + [last];
    }
  }

  lemma {:induction false} SplitUnended(line: string)
    requires '\n' !in line
    ensures Split(line) == [line]
  {
    if line != "" {
      assert line[0] in line;
      SplitUnended(line[1..]);
      assert [line[0]] + line[1..] == line;
    }
  }

  lemma {:induction false} CostOfTwo(a: seq<string>, b: seq<string>)
    ensures Cost(a + b) == Cost(a) + Cost(b)
  {
    if a == [] {
      assert a + b == b;
    } else {
      assert (a + b)[1..] == a[1..] + b;
      CostOfTwo(a[1..], b);
    }
  }

  /** `from` is where the longest affordable tail of `lines` begins. */
  ghost predicate IsLongestTail(lines: seq<string>, maxBytes: int, from: nat) {
    && from <= |lines| && Cost(lines[from..]) <= maxBytes
    && forall earlier: nat | earlier < from :: Cost(lines[earlier..]) > maxBytes
  }

  lemma LongerTailCostsMore(lines: seq<string>, from: nat, to: nat)
    requires from <= to <= |lines|
    ensures Cost(lines[from..]) >= Cost(lines[to..])
  {
    CostOfTwo(lines[from..to], lines[to..]);
    assert lines[from..] == lines[from..to] + lines[to..];
  }

  /** The eviction loop: newest lines first, until one does not fit. */
  method KeepNewest(lines: seq<string>, maxBytes: int) returns (kept: seq<string>)
    requires maxBytes >= 0
    ensures |kept| <= |lines| && kept == lines[|lines| - |kept|..] && IsLongestTail(lines, maxBytes, |lines| - |kept|)
  {
    var i, used := |lines|, 0;
    assert lines[i..] == [];
    while i > 0 && used + |lines[i - 1]| + 1 <= maxBytes
      invariant 0 <= i <= |lines| && used == Cost(lines[i..]) <= maxBytes
    {
      assert lines[i - 1..][1..] == lines[i..];
      used := used + |lines[i - 1]| + 1;
      i := i - 1;
    }
    if i > 0 {
      assert lines[i - 1..][1..] == lines[i..];
      forall earlier: nat | earlier < i ensures Cost(lines[earlier..]) > maxBytes {
        LongerTailCostsMore(lines, earlier, i - 1);
      }
    }
    kept := lines[i..];
  }

  /**
   `enforce_bound`. A file within the bound, or whose lines all fit, stays as it is;
   otherwise, unless it cannot be looked at or read, or the write fails, exactly its longest
   affordable tail of lines is left.
   */
  method EnforceBound(raw: string, maxBytes: int, readable: bool, writes: bool) returns (file: string, dropped: nat)
    ensures maxBytes <= 0 || |raw| <= maxBytes || Cost(Lines(raw)) <= maxBytes || !readable || !writes ==> file == raw && dropped == 0
    ensures maxBytes > 0 && |raw| > maxBytes && Cost(Lines(raw)) > maxBytes && readable && writes ==>
              && 0 < dropped && IsLongestTail(Lines(raw), maxBytes, dropped)
              && Lines(file) == Lines(raw)[dropped..] && |file| <= maxBytes
  {
    if maxBytes <= 0 || !readable || |raw| <= maxBytes {
      return raw, 0;
    }
    var lines := Lines(raw);
    LinesAreProper(raw);
    var kept := KeepNewest(lines, maxBytes);
    dropped := |lines| - |kept|;
    if dropped == 0 || !writes {
      assert lines[0..] == lines;
      return raw, 0;
    }
    assert forall l <- kept :: l in lines;
    assert lines[0..] == lines;
    TextReadsBack(kept);
    TextLength(kept);
    file := Text(kept);
  }

  /** A file the log itself wrote is over the bound exactly when its lines are, so eviction always brings it within. */
  lemma OwnFilesAreBounded(lines: seq<string>, maxBytes: int)
    requires forall l <- lines :: Proper(l)
    ensures |Text(lines)| > maxBytes <==> Cost(Lines(Text(lines))) > maxBytes
  {
    TextReadsBack(lines);
    TextLength(lines);
  }

  /** A file of blank lines is over any smaller bound and yet has nothing to evict. */
  lemma BlankLinesStayOverTheBound(maxBytes: nat)
    ensures var raw := seq(maxBytes + 1, _ => '\n');
            |raw| > maxBytes && Cost(Lines(raw)) <= maxBytes
  {
    BlankLines(maxBytes + 1);
  }

  lemma {:induction false} BlankLines(n: nat)
    ensures Lines(seq(n, _ => '\n')) == []
  {
    if n > 0 {
      var raw: string := seq(n, _ => '\n');
      assert raw[1..] == seq(n - 1, _ => '\n');
      BlankLines(n - 1);
      assert Split(raw)[1..] == Split(raw[1..]);
    }
  }
}
