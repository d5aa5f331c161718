/** The text layer of calendar files: undoing line folding and value escaping. */
module CalendarText {
  import opened Recurrence
  import opened RecurrenceText

  // ----- Escaping -----

  /** What a calendar writer does to a text value: section 3.3.11 of RFC 5545. */
  function Escaped(s: string): string {
    if s == [] then []
    else
      (if s[0] == '\n' then "\\n"
       else if s[0] == '\\' || s[0] == ';' || s[0] == ',' then ['\\', s[0]]
       else [s[0]]) + Escaped(s[1..])
  }

  function Unescaped(s: string): string {
    if s == [] then []
    else if s[0] != '\\' then [s[0]] + Unescaped(s[1..])
    else if |s| == 1 then []
    else [if s[1] == 'n' || s[1] == 'N' then '\n' else s[1]] + Unescaped(s[2..])
  }

  method Unescape(value: string) returns (out: string)
    ensures out == Unescaped(value)
  {
    hide Unescaped;
    out := "";
    var i := 0;
    UnescapedFrom(value, 0);
    while i < |value|
      invariant 0 <= i <= |value|
      invariant Unescaped(value) == out + Unescaped(value[i..])
    {
      UnescapedFrom(value, i);
      var c := value[i];
      i := i + 1;
      if c != '\\' {
        out := out + [c];
        continue;
      }
      if i == |value| {
        break;
      }
      out := out + [if value[i] == 'n' || value[i] == 'N' then '\n' else value[i]];
      i := i + 1;
    }
    UnescapedFrom(value, i);
  }

  lemma UnescapedFrom(value: string, i: nat)
    requires i <= |value|
    ensures value[0..] == value
    ensures i == |value| ==> Unescaped(value[i..]) == ""
    ensures i < |value| && value[i] != '\\' ==> Unescaped(value[i..]) == [value[i]] + Unescaped(value[i + 1..])
    ensures i < |value| && value[i] == '\\' ==>
              Unescaped(value[i..]) ==
                if i + 1 == |value| then ""
                else [if value[i + 1] == 'n' || value[i + 1] == 'N' then '\n' else value[i + 1]]
                     + Unescaped(value[i + 2..])
  {
    if i < |value| {
      var rest := value[i..];
      assert rest[0] == value[i] && rest[1..] == value[i + 1..];
      assert i + 2 <= |value| ==> rest[1] == value[i + 1] && rest[2..] == value[i + 2..];
    }
  }

  /** Reading undoes writing, on every string. */
  lemma {:induction false} UnescapeUndoesEscape(s: string)
    ensures Unescaped(Escaped(s)) == s
  {
    if s == [] {
    } else {
      UnescapeUndoesEscape(s[1..]);
      var tail := Escaped(s[1..]);
      if s[0] == '\n' || s[0] == '\\' || s[0] == ';' || s[0] == ',' {
        var e := if s[0] == '\n' then "\\n" else ['\\', s[0]];
        assert (e + tail)[2..] == tail;
        assert s == [s[0]] + s[1..];
      } else {
        assert ([s[0]] + tail)[1..] == tail;
      }
    }
  }

  // ----- Folding -----

  function WithoutReturn(raw: string): string {
    if raw != [] && raw[|raw| - 1] == '\r' then raw[..|raw| - 1] else raw
  }

  predicate Continues(line: string) {
    line != [] && (line[0] == ' ' || line[0] == '\t')
  }

  /** One physical line read: a continuation joins the line before it. */
  function ReadLine(out: seq<string>, raw: string): seq<string> {
    var line := WithoutReturn(raw);
    if Continues(line) && out != [] then out[|out| - 1 := out[|out| - 1] + line[1..]]
    else out + [line]
  }

  function ReadLines(out: seq<string>, raws: seq<string>): seq<string>
    decreases |raws|
  {
    if raws == [] then out else ReadLines(ReadLine(out, raws[0]), raws[1..])
  }

  method Unfolded(text: string) returns (out: seq<string>)
    ensures out == ReadLines([], Split(text, '\n'))
  {
    var raws := Split(text, '\n');
    out := [];
    for i := 0 to |raws|
      invariant ReadLines([], raws) == ReadLines(out, raws[i..])
    {
      assert raws[i..][0] == raws[i] && raws[i..][1..] == raws[i + 1..];
      var raw := raws[i];
      var line := if raw != [] && raw[|raw| - 1] == '\r' then raw[..|raw| - 1] else raw;
      if line != [] && (line[0] == ' ' || line[0] == '\t') {
        if out != [] {
          out := out[|out| - 1 := out[|out| - 1] + line[1..]];
          continue;
        }
      }
      out := out + [line];
    }
    assert raws[|raws|..] == [];
  }

  /** A logical line as it was written: its first piece, and each further piece behind the white space of a fold. */
  datatype FoldedLine = FoldedLine(head: string, folds: seq<(char, string)>)

  function Unbroken(head: string, folds: seq<(char, string)>): string
    decreases |folds|
  {
    if folds == [] then head else Unbroken(head + folds[0].1, folds[1..])
  }

  /** The logical line the pieces make up. */
  function Whole(l: FoldedLine): string {
    Unbroken(l.head, l.folds)
  }

  function WrittenFolds(folds: seq<(char, string)>, eol: string): string {
    if folds == [] then "" else [folds[0].0] + folds[0].1 + eol + WrittenFolds(folds[1..], eol)
  }

  /** Content lines as section 3.1 of RFC 5545 writes them, with a line ending after each and at each fold. */
  function Written(lines: seq<FoldedLine>, eol: string): string {
    if lines == [] then ""
    else lines[0].head + eol + WrittenFolds(lines[0].folds, eol) + Written(lines[1..], eol)
  }

  /** The standard's line ending, or a bare newline, as files often have. */
  predicate IsEol(eol: string) {
    eol == "\r\n" || eol == "\n"
  }

  /** No newline inside, nor a return at the end that a bare newline would make part of the line ending. */
  predicate Ends(line: string, eol: string) {
    '\n' !in line && (eol == "\n" && line != [] ==> line[|line| - 1] != '\r')
  }

  /** Folded with spaces or tabs, into pieces that end, and not beginning like a continuation. */
  predicate Foldable(l: FoldedLine, eol: string) {
    && Ends(l.head, eol) && !Continues(l.head)
    && forall f :: f in l.folds ==> (f.0 == ' ' || f.0 == '\t') && Ends(f.1, eol)
  }

  function WholeLines(lines: seq<FoldedLine>): seq<string> {
    if lines == [] then [] else [Whole(lines[0])] + WholeLines(lines[1..])
  }

  /** A physical line and its ending are read before anything after them. */
  lemma PhysicalLine(out: seq<string>, line: string, rest: string, eol: string)
    requires IsEol(eol) && Ends(line, eol)
    ensures ReadLines(out, Split(line + eol + rest, '\n'))
         == ReadLines(if Continues(line) && out != [] then out[|out| - 1 := out[|out| - 1] + line[1..]]
                      else out + [line],
                      Split(rest, '\n'))
  {
    hide Split, WithoutReturn, ReadLines, Continues, IsEol, Ends;
    var raw := line + if eol == "\n" then "" else "\r";
    LineIsCut(line, eol, rest);
    ReturnIsDropped(line, eol);
    CutAtFirst(raw, rest, '\n');
    FirstIsRead(out, raw, Split(rest, '\n'));
  }

  lemma LineIsCut(line: string, eol: string, rest: string)
    requires IsEol(eol)
    ensures line + eol + rest == line + (if eol == "\n" then "" else "\r") + ['\n'] + rest
  {
  }

  lemma FirstIsRead(out: seq<string>, raw: string, raws: seq<string>)
    ensures ReadLines(out, [raw] + raws) == ReadLines(ReadLine(out, raw), raws)
  {
    assert ([raw] + raws)[1..] == raws;
  }

  lemma ReturnIsDropped(line: string, eol: string)
    requires IsEol(eol) && Ends(line, eol)
    ensures var raw := line + if eol == "\n" then "" else "\r";
            '\n' !in raw && WithoutReturn(raw) == line
  {
  }

  lemma {:induction false} FoldsAreJoined(out: seq<string>, last: string, folds: seq<(char, string)>, rest: string,
                                          eol: string)
    requires IsEol(eol) && forall f :: f in folds ==> (f.0 == ' ' || f.0 == '\t') && Ends(f.1, eol)
    ensures ReadLines(out + [last], Split(WrittenFolds(folds, eol) + rest, '\n'))
         == ReadLines(out + [Unbroken(last, folds)], Split(rest, '\n'))
    decreases |folds|
  {
    if folds == [] {
      assert WrittenFolds(folds, eol) + rest == rest;
    } else {
      hide ReadLines, Split, WrittenFolds, Ends, IsEol;
      var f := folds[0];
      FoldIsWritten(folds, rest, eol);
      PhysicalLine(out + [last], [f.0] + f.1, WrittenFolds(folds[1..], eol) + rest, eol);
      assert ([f.0] + f.1)[1..] == f.1;
      assert (out + [last])[|out| := last + f.1] == out + [last + f.1];
      FoldsAreJoined(out, last + f.1, folds[1..], rest, eol);
    }
  }

  lemma FoldIsWritten(folds: seq<(char, string)>, rest: string, eol: string)
    requires folds != [] && Ends(folds[0].1, eol) && (folds[0].0 == ' ' || folds[0].0 == '\t')
    ensures Ends([folds[0].0] + folds[0].1, eol)
    ensures WrittenFolds(folds, eol) + rest ==
              [folds[0].0] + folds[0].1 + eol + (WrittenFolds(folds[1..], eol) + rest)
  {
  }

  lemma {:induction false} LinesAreJoined(out: seq<string>, lines: seq<FoldedLine>, eol: string)
    requires IsEol(eol) && forall l :: l in lines ==> Foldable(l, eol)
    ensures ReadLines(out, Split(Written(lines, eol), '\n')) == out + WholeLines(lines) + [""]
    decreases |lines|
  {
    hide ReadLines, Split, WholeLines, Written;
    WrittenSplits(lines, eol);
    if lines == [] {
      NothingLeft(out);
    } else {
      var l := lines[0];
      assert Foldable(l, eol);
      var after := WrittenFolds(l.folds, eol) + Written(lines[1..], eol);
      PhysicalLine(out, l.head, after, eol);
      FoldsAreJoined(out, l.head, l.folds, Written(lines[1..], eol), eol);
      LinesAreJoined(out + [Whole(l)], lines[1..], eol);
      assert out + ([Whole(l)] + WholeLines(lines[1..])) == out + [Whole(l)] + WholeLines(lines[1..]);
    }
  }

  lemma NothingLeft(out: seq<string>)
    ensures ReadLines(out, Split("", '\n')) == out + [""]
  {
    assert Split("", '\n') == [""];
    assert [""][1..] == [];
  }

  lemma WrittenSplits(lines: seq<FoldedLine>, eol: string)
    ensures lines == [] ==> Written(lines, eol) == "" && WholeLines(lines) == []
    ensures lines != [] ==>
              && Written(lines, eol) ==
                   lines[0].head + eol + (WrittenFolds(lines[0].folds, eol) + Written(lines[1..], eol))
              && WholeLines(lines) == [Whole(lines[0])] + WholeLines(lines[1..])
  {
  }

  /** Unfolding gives back the logical lines, wherever and however often they were folded, with either line ending. */
  lemma UnfoldUndoesFold(lines: seq<FoldedLine>, eol: string)
    requires IsEol(eol) && forall l :: l in lines ==> Foldable(l, eol)
    ensures ReadLines([], Split(Written(lines, eol), '\n')) == WholeLines(lines) + [""]
  {
    LinesAreJoined([], lines, eol);
    assert [] + WholeLines(lines) == WholeLines(lines);
  }
}
