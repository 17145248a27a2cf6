/** prepare_restart: copies the model file's coordinate and symmetry records
    to the restart file, line by line, and drops every other line. */
module Restart {
  import opened Text

  /** The record names a restart file keeps. */
  const RestartRecords: set<string> := {"ATOM", "HETATM", "ANISOU", "CRYST1", "ORIGX1", "ORIGX2", "ORIGX3",
                                        "SCALE1", "SCALE2", "SCALE3", "TER", "END"}

  /** line[0:6].strip() in records; the slice stops at the end of a short
      line. */
  predicate IsRestartRecord(line: string) {
    Strip(line[..if |line| < 6 then |line| else 6]) in RestartRecords
  }

  /** The position just past the line that starts at pos: after its newline,
      or the end of the text for a last line without one. */
  function LineEnd(text: string, pos: nat): (e: nat)
    requires pos <= |text|
    ensures pos <= e <= |text|
    ensures pos < |text| ==> pos < e
    decreases |text| - pos
  {
    if pos == |text| then pos
    else if text[pos] == '\n' then pos + 1
    else LineEnd(text, pos + 1)
  }

  /** A line holds no newline before its last character, and one that stops
      short of the end of the text ends with a newline. */
  lemma {:induction false} LineEndIsNewline(text: string, pos: nat)
    requires pos <= |text|
    ensures var e := LineEnd(text, pos);
      && (forall k :: pos <= k < e - 1 ==> text[k] != '\n')
      && (pos < e < |text| ==> text[e - 1] == '\n')
    decreases |text| - pos
  {
    if pos < |text| && text[pos] != '\n' {
      LineEndIsNewline(text, pos + 1);
    }
  }

  /** file.readline() at pos: one line with its newline, "" at the end. */
  function ReadLine(text: string, pos: nat): string
    requires pos <= |text|
  {
    text[pos..LineEnd(text, pos)]
  }

  /** The lines readline() returns from pos on, up to the end of the text. */
  function Lines(text: string, pos: nat): seq<string>
    requires pos <= |text|
    decreases |text| - pos
  {
    if pos == |text| then [] else [ReadLine(text, pos)] + Lines(text, LineEnd(text, pos))
  }

  function Concat(lines: seq<string>): string {
    if lines == [] then "" else lines[0] + Concat(lines[1..])
  }

  /** The lines written to the restart file, in their order. */
  function Kept(lines: seq<string>): seq<string> {
    if lines == [] then []
    else (if IsRestartRecord(lines[0]) then [lines[0]] else []) + Kept(lines[1..])
  }

  /** The lines cover the text: put back together they are the text itself. */
  lemma {:induction false} LinesCoverText(text: string, pos: nat)
    requires pos <= |text|
    ensures Concat(Lines(text, pos)) == text[pos..]
    decreases |text| - pos
  {
    if pos < |text| {
      var e := LineEnd(text, pos);
      LinesCoverText(text, e);
      ConcatCons(text[pos..e], Lines(text, e));
      SplitAt(text, pos, e);
    }
  }

  lemma ConcatCons(line: string, rest: seq<string>)
    ensures Concat([line] + rest) == line + Concat(rest)
  {
    assert ([line] + rest)[1..] == rest;
  }

  lemma SplitAt(text: string, pos: nat, e: nat)
    requires pos <= e <= |text|
    ensures text[pos..] == text[pos..e] + text[e..]
  {
  }

  /** Every line is non-empty, holds a newline only as its last character,
      and only the last line of the text may lack one. */
  lemma {:induction false} LinesAreLines(text: string, pos: nat)
    requires pos <= |text|
    ensures var ls := Lines(text, pos);
      forall i :: 0 <= i < |ls| ==>
        && |ls[i]| > 0
        && (forall k :: 0 <= k < |ls[i]| - 1 ==> ls[i][k] != '\n')
        && (i < |ls| - 1 ==> ls[i][|ls[i]| - 1] == '\n')
    decreases |text| - pos
  {
    if pos < |text| {
      var e := LineEnd(text, pos);
      LineEndIsNewline(text, pos);
      LinesAreLines(text, e);
      var ls := Lines(text, pos);
      assert ls[1..] == Lines(text, e);
      if e < |text| {
        assert |Lines(text, e)| > 0;
      }
    }
  }

  /** Keeping distributes over concatenation, so the kept lines stay in the
      order they had. */
  lemma {:induction false} KeptAppend(a: seq<string>, b: seq<string>)
    ensures Kept(a + b) == Kept(a) + Kept(b)
  {
    if a == [] {
      assert a + b == b;
    } else {
      assert (a + b)[1..] == a[1..] + b;
      KeptAppend(a[1..], b);
      var head := if IsRestartRecord(a[0]) then [a[0]] else [];
      assert Kept(a + b) == head + (Kept(a[1..]) + Kept(b));
    }
  }

  /** A line is written exactly when it is one of the text's lines and its
      record name is on the list. */
  lemma {:induction false} KeptMembers(lines: seq<string>)
    ensures forall l :: l in Kept(lines) <==> l in lines && IsRestartRecord(l)
  {
    if lines != [] {
      KeptMembers(lines[1..]);
      assert forall l :: l in lines <==> l == lines[0] || l in lines[1..];
    }
  }

  /** The record name is read from the first six characters only: "END"
      ends a file and is kept, "ENDMDL" is not on the list. */
  lemma RecordNames()
    ensures IsRestartRecord("END\n")
    ensures !IsRestartRecord("ENDMDL\n")
    ensures IsRestartRecord("TER   ")
  {
    assert "END\n"[..4] == "END\n";
    assert Strip("END\n") == "END" by {
      StripSurrounded("", "END", "\n");
      assert "END\n" == "" + "END" + "\n";
    }
    assert "ENDMDL\n"[..6] == "ENDMDL";
    assert Strip("ENDMDL") == "ENDMDL" by {
      StripPadded("", "ENDMDL");
    }
    assert "TER   "[..6] == "TER   ";
    assert Strip("TER   ") == "TER" by {
      StripSurrounded("", "TER", "   ");
      assert "TER   " == "" + "TER" + "   ";
    }
  }

  lemma KeepStep(text: string, start: nat)
    requires start < |text|
    ensures Concat(Kept(Lines(text, start))) ==
      (if IsRestartRecord(ReadLine(text, start)) then ReadLine(text, start) else "") + Concat(Kept(Lines(text, LineEnd(text, start))))
  {
    var line := ReadLine(text, start);
    var rest := Lines(text, LineEnd(text, start));
    assert Lines(text, start) == [line] + rest;
    assert ([line] + rest)[1..] == rest;
    var k := Kept(rest);
    if IsRestartRecord(line) {
      assert Kept([line] + rest) == [line] + k;
      assert ([line] + k)[1..] == k;
    } else {
      assert Kept([line] + rest) == k;
    }
  }

  lemma AppendAssoc(a: string, b: string, c: string)
    ensures a + (b + c) == (a + b) + c
  {
  }

  /** prepare_restart on the model file's text: the readline loop ends at
      the first empty read, which is the end of the text. */
  method PrepareRestart(text: string) returns (out: string)
    ensures out == Concat(Kept(Lines(text, 0)))
  {
    out := "";
    var start := 0;
    var pos := LineEnd(text, 0);
    var line := text[0..pos];
    while line != ""
      invariant start <= pos <= |text|
      invariant pos == LineEnd(text, start) && line == text[start..pos]
      invariant Concat(Kept(Lines(text, 0))) == out + Concat(Kept(Lines(text, start)))
      decreases |text| - start
    {
      KeepStep(text, start);
      ghost var rest := Concat(Kept(Lines(text, pos)));
      if IsRestartRecord(line) {
        AppendAssoc(out, line, rest);
        out := out + line;
      } else {
        assert "" + rest == rest;
      }
      start := pos;
      pos := LineEnd(text, pos);
      line := text[start..pos];
    }
  }
}
