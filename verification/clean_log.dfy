/** `clean_zone_transition_log` of archive/unused_core/clean_zone_log.py:
    keep the lines of the transition log whose raw comma count fits the
    expected number of fields, report the others with their 1-based line
    numbers. File contents are text as Python reads it in text mode. */
module CleanLog {
  import opened Wrappers

  /** `EXPECTED_FIELDS`, the default field count. */
  const ExpectedFields: int := 4

  /** `line.count(",")`: commas anywhere, quoted or not. */
  function CommaCount(s: string): nat
  {
    if |s| == 0 then 0 else (if s[0] == ',' then 1 else 0) + CommaCount(s[1..])
  }

  lemma {:induction false} CommaCountAppend(s: string, t: string)
    ensures CommaCount(s + t) == CommaCount(s) + CommaCount(t)
    decreases |s|
  {
    if |s| == 0 {
      assert s + t == t;
    } else {
      assert (s + t)[1..] == s[1..] + t;
      CommaCountAppend(s[1..], t);
    }
  }

  /** Whether a line passes the filter. */
  predicate Fits(line: string, expected: int)
  {
    CommaCount(line) == expected - 1
  }

  /** The length of the first line of `text`, its '\n' included. */
  function FirstLineLength(text: string): (k: nat)
    requires |text| > 0
    ensures 0 < k <= |text|
    ensures forall j | 0 <= j < k - 1 :: text[j] != '\n'
    ensures k < |text| ==> text[k - 1] == '\n'
    ensures k == |text| || text[k - 1] == '\n'
  {
    if text[0] == '\n' || |text| == 1 then 1 else 1 + FirstLineLength(text[1..])
  }

  /** `readlines()`: the text cut after every '\n'. */
  function ReadLines(text: string): seq<string>
    decreases |text|
  {
    if |text| == 0 then []
    else
      var k := FirstLineLength(text);
      [text[..k]] + ReadLines(text[k..])
  }

  /** `writelines`: the lines written one after another. */
  function Concat(lines: seq<string>): string
  {
    if |lines| == 0 then "" else lines[0] + Concat(lines[1..])
  }

  /** Lines as `readlines` produces them: none empty, a '\n' only at the
      end, and every line but the last ends with one. */
  predicate LinesShape(lines: seq<string>)
  {
    forall i | 0 <= i < |lines| ::
      && |lines[i]| > 0
      && (forall j | 0 <= j < |lines[i]| - 1 :: lines[i][j] != '\n')
      && (i < |lines| - 1 ==> lines[i][|lines[i]| - 1] == '\n')
  }

  /** Reading loses nothing: the lines put back together are the text, and
      they have the shape of lines. */
  lemma ReadLinesSpec(text: string)
    ensures Concat(ReadLines(text)) == text
    ensures LinesShape(ReadLines(text))
  {
    ReadLinesConcat(text);
    ReadLinesShape(text);
  }

  /** The lines put back together are the text. */
  lemma {:induction false} ReadLinesConcat(text: string)
    ensures Concat(ReadLines(text)) == text
    decreases |text|
  {
    if |text| > 0 {
      var k := FirstLineLength(text);
      ReadLinesConcat(text[k..]);
      assert text[..k] + text[k..] == text;
    }
  }

  /** The lines have the shape of lines. */
  lemma {:induction false} ReadLinesShape(text: string)
    ensures LinesShape(ReadLines(text))
    decreases |text|
  {
    if |text| > 0 {
      var k := FirstLineLength(text);
      var rest := ReadLines(text[k..]);
      ReadLinesShape(text[k..]);
      assert |rest| > 0 ==> k < |text|;
      LinesShapeCons(text[..k], rest);
    }
  }

  /** A well-formed first line in front of well-formed lines. */
  lemma LinesShapeCons(first: string, rest: seq<string>)
    requires |first| > 0 && forall j | 0 <= j < |first| - 1 :: first[j] != '\n'
    requires |rest| > 0 ==> first[|first| - 1] == '\n'
    requires LinesShape(rest)
    ensures LinesShape([first] + rest)
  {
    var lines := [first] + rest;
    assert forall i | 1 <= i < |lines| :: lines[i] == rest[i - 1];
  }

  /** Lines of that shape, written and read back, are the same lines. */
  lemma {:induction false} ReadBackLines(lines: seq<string>)
    requires LinesShape(lines)
    ensures ReadLines(Concat(lines)) == lines
    decreases |lines|
  {
    if |lines| > 0 {
      var first, after := lines[0], Concat(lines[1..]);
      LinesShapeTail(lines);
      ReadBackLines(lines[1..]);
      if |lines| > 1 {
        assert |after| > 0 by {
          assert after == lines[1] + Concat(lines[2..]);
        }
      }
      FirstLineOf(first, after);
      var text := first + after;
      assert text[..|first|] == first;
      assert text[|first|..] == after;
    }
  }

  /** Dropping the first line keeps the shape. */
  lemma LinesShapeTail(lines: seq<string>)
    requires |lines| > 0 && LinesShape(lines)
    ensures LinesShape(lines[1..])
  {
    assert forall i | 0 <= i < |lines| - 1 :: lines[1..][i] == lines[i + 1];
  }

  /** A line without an inner '\n', ending in one when more text follows,
      is the whole first line of the text it starts. */
  lemma {:induction false} FirstLineOf(first: string, after: string)
    requires |first| > 0 && forall j | 0 <= j < |first| - 1 :: first[j] != '\n'
    requires |after| > 0 ==> first[|first| - 1] == '\n'
    ensures FirstLineLength(first + after) == |first|
    decreases |first|
  {
    var text := first + after;
    if |first| > 1 {
      assert text[0] == first[0] != '\n';
      assert text[1..] == first[1..] + after;
      FirstLineOf(first[1..], after);
    } else {
      assert text[0] == first[0];
    }
  }

  /** The characters `str.strip()` removes. */
  predicate IsSpace(c: char)
  {
    || c == ' ' || ('\U{0009}' <= c <= '\U{000D}') || ('\U{001C}' <= c <= '\U{001F}')
    || c == '\U{0085}' || c == '\U{00A0}' || c == '\U{1680}' || ('\U{2000}' <= c <= '\U{200A}')
    || c == '\U{2028}' || c == '\U{2029}' || c == '\U{202F}' || c == '\U{205F}' || c == '\U{3000}'
  }

  /** `s.lstrip()`. */
  function StripLeft(s: string): string
  {
    if |s| > 0 && IsSpace(s[0]) then StripLeft(s[1..]) else s
  }

  /** `s.rstrip()`. */
  function StripRight(s: string): string
  {
    if |s| > 0 && IsSpace(s[|s| - 1]) then StripRight(s[..|s| - 1]) else s
  }

  /** `s.strip()`. */
  function Strip(s: string): string
  {
    StripRight(StripLeft(s))
  }

  /** `lstrip` removes exactly the leading whitespace. */
  lemma {:induction false} StripLeftSpec(s: string)
    ensures var r := StripLeft(s);
            && |r| <= |s| && r == s[|s| - |r|..]
            && (|r| > 0 ==> !IsSpace(r[0]))
            && (forall j | 0 <= j < |s| - |r| :: IsSpace(s[j]))
    decreases |s|
  {
    if |s| > 0 && IsSpace(s[0]) {
      StripLeftSpec(s[1..]);
    }
  }

  /** `rstrip` removes exactly the trailing whitespace. */
  lemma {:induction false} StripRightSpec(s: string)
    ensures var r := StripRight(s);
            && |r| <= |s| && r == s[..|r|]
            && (|r| > 0 ==> !IsSpace(r[|r| - 1]))
            && (forall j | |r| <= j < |s| :: IsSpace(s[j]))
    decreases |s|
  {
    if |s| > 0 && IsSpace(s[|s| - 1]) {
      StripRightSpec(s[..|s| - 1]);
    }
  }

  /** A skipped line as reported: its 1-based number and its stripped text. */
  datatype Skipped = Skipped(number: nat, text: string)

  /** The two lists the loop builds. */
  datatype Split = Split(kept: seq<string>, skipped: seq<Skipped>)

  /** The filter loop over `lines`, numbering them from `start`. */
  function SplitLines(lines: seq<string>, expected: int, start: nat): (r: Split)
    ensures |r.kept| + |r.skipped| == |lines|
    decreases |lines|
  {
    if |lines| == 0 then Split([], [])
    else
      var rest := SplitLines(lines[1..], expected, start + 1);
      if Fits(lines[0], expected) then Split([lines[0]] + rest.kept, rest.skipped)
      else Split(rest.kept, [Skipped(start, Strip(lines[0]))] + rest.skipped)
  }

  /** The kept lines are exactly the fitting ones. */
  lemma {:induction false} KeptAreFitting(lines: seq<string>, expected: int, start: nat)
    ensures forall l | l in SplitLines(lines, expected, start).kept :: Fits(l, expected)
    ensures forall i | 0 <= i < |lines| && Fits(lines[i], expected) ::
              lines[i] in SplitLines(lines, expected, start).kept
    decreases |lines|
  {
    if |lines| > 0 {
      KeptAreFitting(lines[1..], expected, start + 1);
      assert forall i | 1 <= i < |lines| :: lines[i] == lines[1..][i - 1];
    }
  }

  /** The skipped entries are exactly the non-fitting lines, each under its
      number (counted from `start`) and its stripped text. */
  lemma SkippedAreMisfits(lines: seq<string>, expected: int, start: nat)
    ensures forall s | s in SplitLines(lines, expected, start).skipped ::
              && start <= s.number < start + |lines|
              && !Fits(lines[s.number - start], expected)
              && s.text == Strip(lines[s.number - start])
    ensures forall i | 0 <= i < |lines| && !Fits(lines[i], expected) ::
              Skipped(start + i, Strip(lines[i])) in SplitLines(lines, expected, start).skipped
  {
    SkippedSound(lines, expected, start);
    SkippedComplete(lines, expected, start);
  }

  /** Every skipped entry is a non-fitting line under its number. */
  lemma {:induction false} SkippedSound(lines: seq<string>, expected: int, start: nat)
    ensures forall s | s in SplitLines(lines, expected, start).skipped ::
              && start <= s.number < start + |lines|
              && !Fits(lines[s.number - start], expected)
              && s.text == Strip(lines[s.number - start])
    decreases |lines|
  {
    if |lines| > 0 {
      var rest := SplitLines(lines[1..], expected, start + 1);
      var r := SplitLines(lines, expected, start);
      SkippedSound(lines[1..], expected, start + 1);
      forall s | s in r.skipped
        ensures && start <= s.number < start + |lines|
                && !Fits(lines[s.number - start], expected)
                && s.text == Strip(lines[s.number - start])
      {
        if s in rest.skipped {
          assert lines[s.number - start] == lines[1..][s.number - (start + 1)];
        }
      }
    }
  }

  /** Every non-fitting line is skipped under its number. */
  lemma {:induction false} SkippedComplete(lines: seq<string>, expected: int, start: nat)
    ensures forall i | 0 <= i < |lines| && !Fits(lines[i], expected) ::
              Skipped(start + i, Strip(lines[i])) in SplitLines(lines, expected, start).skipped
    decreases |lines|
  {
    if |lines| > 0 {
      var r := SplitLines(lines, expected, start);
      SkippedComplete(lines[1..], expected, start + 1);
      forall i | 0 <= i < |lines| && !Fits(lines[i], expected)
        ensures Skipped(start + i, Strip(lines[i])) in r.skipped
      {
        if i > 0 {
          assert lines[i] == lines[1..][i - 1];
        }
      }
    }
  }

  /** Entries numbered strictly upwards, none below `start`. */
  predicate AscendingFrom(skipped: seq<Skipped>, start: nat)
  {
    && (forall k | 0 <= k < |skipped| :: start <= skipped[k].number)
    && (forall a, b | 0 <= a < b < |skipped| :: skipped[a].number < skipped[b].number)
  }

  /** Skipped lines are reported in file order, none before `start`. */
  lemma {:induction false} SkippedInOrder(lines: seq<string>, expected: int, start: nat)
    ensures AscendingFrom(SplitLines(lines, expected, start).skipped, start)
    decreases |lines|
  {
    if |lines| > 0 {
      var rest := SplitLines(lines[1..], expected, start + 1).skipped;
      var skipped := SplitLines(lines, expected, start).skipped;
      SkippedInOrder(lines[1..], expected, start + 1);
      if !Fits(lines[0], expected) {
        assert |skipped| == |rest| + 1 && skipped[0].number == start;
        assert forall k | 1 <= k < |skipped| :: skipped[k] == rest[k - 1];
      } else {
        assert skipped == rest;
      }
    }
  }

  /** The kept lines keep their order: filtering a concatenation keeps the
      kept lines of each part, in turn. */
  lemma {:induction false} KeptInOrder(a: seq<string>, b: seq<string>, expected: int, start: nat)
    ensures SplitLines(a + b, expected, start).kept
              == SplitLines(a, expected, start).kept + SplitLines(b, expected, start + |a|).kept
    decreases |a|
  {
    if |a| == 0 {
      assert a + b == b;
    } else {
      assert (a + b)[1..] == a[1..] + b;
      KeptInOrder(a[1..], b, expected, start + 1);
    }
  }

  /** The kept lines of well-shaped lines are again well-shaped: only the
      last input line can lack its '\n', and it stays last. */
  lemma {:induction false} KeptShape(lines: seq<string>, expected: int, start: nat)
    requires LinesShape(lines)
    ensures LinesShape(SplitLines(lines, expected, start).kept)
    decreases |lines|
  {
    if |lines| > 0 {
      assert LinesShape(lines[1..]) by {
        assert forall i | 0 <= i < |lines[1..]| :: lines[1..][i] == lines[i + 1];
      }
      KeptShape(lines[1..], expected, start + 1);
      var rest := SplitLines(lines[1..], expected, start + 1);
      if Fits(lines[0], expected) && |rest.kept| > 0 {
        assert |lines| > 1;
      }
    }
  }

  /** What the cleaner does with the file system. */
  datatype Outcome = InputMissing | Written(output: string, kept: nat, skipped: seq<Skipped>)

  /** `clean_zone_transition_log`: nothing is written when the input file is
      missing; otherwise the output holds the fitting lines, unchanged and in
      order, and every other line is reported with its 1-based number. */
  function CleanZoneTransitionLog(input: Option<string>, expected: int): (out: Outcome)
    ensures input.None? <==> out.InputMissing?
    ensures input.Some? ==>
              && ReadLines(out.output) == SplitLines(ReadLines(input.value), expected, 1).kept
              && out.kept + |out.skipped| == |ReadLines(input.value)|
  {
    match input
    case None => InputMissing
    case Some(text) =>
      var split := SplitLines(ReadLines(text), expected, 1);
      ReadLinesSpec(text);
      KeptShape(ReadLines(text), expected, 1);
      ReadBackLines(split.kept);
      Written(Concat(split.kept), |split.kept|, split.skipped)
  }

  /** Cleaning is idempotent: cleaning the cleaned output keeps every line
      and reports none. */
  lemma CleanIdempotent(text: string, expected: int)
    ensures var once := CleanZoneTransitionLog(Some(text), expected);
            var twice := CleanZoneTransitionLog(Some(once.output), expected);
            twice.output == once.output && twice.skipped == []
  {
    var once := CleanZoneTransitionLog(Some(text), expected);
    var kept := SplitLines(ReadLines(text), expected, 1).kept;
    assert ReadLines(once.output) == kept;
    KeptAreFitting(ReadLines(text), expected, 1);
    AllFitKeptWhole(kept, expected, 1);
  }

  /** Lines that all fit are all kept and none is skipped. */
  lemma {:induction false} AllFitKeptWhole(lines: seq<string>, expected: int, start: nat)
    requires forall l | l in lines :: Fits(l, expected)
    ensures SplitLines(lines, expected, start) == Split(lines, [])
    decreases |lines|
  {
    if |lines| > 0 {
      assert forall l | l in lines[1..] :: l in lines;
      AllFitKeptWhole(lines[1..], expected, start + 1);
    }
  }

  /** A CSV record: its fields joined by commas. */
  function JoinFields(fields: seq<string>): string
  {
    if |fields| == 0 then ""
    else if |fields| == 1 then fields[0]
    else fields[0] + "," + JoinFields(fields[1..])
  }

  /** A record of comma-free fields has one comma fewer than it has fields. */
  lemma {:induction false} JoinedCommas(fields: seq<string>)
    requires |fields| > 0
    requires forall f | f in fields :: CommaCount(f) == 0
    ensures CommaCount(JoinFields(fields)) == |fields| - 1
    decreases |fields|
  {
    if |fields| > 1 {
      assert forall f | f in fields[1..] :: f in fields;
      JoinedCommas(fields[1..]);
      CommaCountAppend(fields[0], ",");
      CommaCountAppend(fields[0] + ",", JoinFields(fields[1..]));
    }
  }

  /** With the default of four fields, a four-field row (as the live engine
      writes) is kept and a five-field row with a Price (as the archived scan
      writes) is dropped, so long as no field holds a comma. */
  lemma DefaultKeepsFourFieldRows(fields: seq<string>)
    requires |fields| > 0
    requires forall f | f in fields :: CommaCount(f) == 0
    ensures Fits(JoinFields(fields) + "\n", ExpectedFields) <==> |fields| == 4
  {
    JoinedCommas(fields);
    CommaCountAppend(JoinFields(fields), "\n");
  }
}
