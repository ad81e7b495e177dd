/** How the sender cleans one line of a G-code file before transmitting it
    (the body of the streaming loop in grbl_sender.py, up to the send). */
module Gcode {
  import opened Text

  /** `s.split(c)[0]`: the text before the first `c`, or all of `s` without one. */
  function Before(s: string, c: char): (r: string)
    ensures |r| <= |s| && r == s[..|r|] && c !in r
    ensures c in s ==> |r| < |s| && s[|r|] == c
    ensures c !in s ==> r == s
  {
    if s == [] then []
    else if s[0] == c then []
    else [s[0]] + Before(s[1..], c)
  }

  /** The command sent for one raw file line; "" when the line is skipped.
      A stripped line that is empty or starts with ';' or '(' is a comment;
      any other line loses everything from its first ';' and is stripped again. */
  function Normalize(raw: string): string
  {
    var line := Strip(raw);
    if line == "" || line[0] == ';' || line[0] == '(' then ""
    else if ';' in line then Strip(Before(line, ';'))
    else line
  }

  /** Whether the loop skips a raw line before any truncation. */
  predicate IsComment(raw: string)
  {
    var line := Strip(raw);
    line == "" || line[0] == ';' || line[0] == '('
  }

  /** What gets sent is trimmed, carries no ';' and does not start with '('. */
  lemma NormalizeShape(raw: string)
    ensures var cmd := Normalize(raw);
      Stripped(cmd) && ';' !in cmd && (cmd != "" ==> cmd[0] != '(')
  {
    var line := Strip(raw);
    if !IsComment(raw) && ';' in line {
      var cut := Before(line, ';');
      assert cut != [] && cut[0] == line[0];
      StripKeepsSolidFront(cut);
      StripIsSlice(cut);
    }
  }

  /** A line is dropped exactly when it is a comment: truncation at ';' never
      leaves an empty command, so the second emptiness test of the loop never fires. */
  lemma NormalizeSkipsExactlyComments(raw: string)
    ensures Normalize(raw) == "" <==> IsComment(raw)
  {
    var line := Strip(raw);
    if !IsComment(raw) && ';' in line {
      var cut := Before(line, ';');
      assert cut != [] && cut[0] == line[0];
      StripKeepsSolidFront(cut);
    }
  }

  /** Normalising a command that was already normalised changes nothing. */
  lemma NormalizeIdempotent(raw: string)
    ensures Normalize(Normalize(raw)) == Normalize(raw)
  {
    NormalizeShape(raw);
  }

  /** A non-blank text whose first character is not whitespace keeps that character
      at the front after `strip()`. */
  lemma StripKeepsSolidFront(s: string)
    requires s != [] && !IsSpace(s[0])
    ensures Strip(s) != [] && Strip(s)[0] == s[0]
  {
    assert TrimStart(s) == s;
    TrimEndSpaces(s);
  }

  /** A character absent from a text is absent from its stripped form. */
  lemma StripIsSlice(s: string)
    ensures forall c :: c in Strip(s) ==> c in s
  {
    StripRemovesOnlySpace(s);
    var i := LeadingSpace(s);
    var r := Strip(s);
    forall c | c in r ensures c in s {
      var k :| 0 <= k < |r| && r[k] == c;
      assert s[i + k] == c;
    }
  }

  /** The commands a file yields, in file order, skipped lines left out. */
  function Commands(lines: seq<string>): seq<string>
  {
    if lines == [] then []
    else (if Normalize(lines[0]) == "" then [] else [Normalize(lines[0])]) + Commands(lines[1..])
  }

  /** One file line at a time: its command, if any, then those of the lines after it. */
  lemma CommandsUnfold(lines: seq<string>)
    requires lines != []
    ensures Commands(lines) == (if Normalize(lines[0]) == "" then [] else [Normalize(lines[0])]) + Commands(lines[1..])
  {
  }

  /** The file from line `i` on: the command of line `i`, if any, then those of the lines after it. */
  lemma FileStep(lines: seq<string>, i: nat)
    requires i < |lines|
    ensures Commands(lines[i..]) == (if Normalize(lines[i]) == "" then [] else [Normalize(lines[i])]) + Commands(lines[i + 1..])
  {
    CommandsUnfold(lines[i..]);
    assert lines[i..][0] == lines[i] && lines[i..][1..] == lines[i + 1..];
  }

  /** A small file: three commands with a comment line after the first. */
  const EXAMPLE_FILE: seq<string> := ["G21", "; comment", "G1 X10 Y5 F100", "G1 X0"]

  /** The example file yields its three commands, in order. */
  lemma ExampleCommands()
    ensures Commands(EXAMPLE_FILE) == ["G21", "G1 X10 Y5 F100", "G1 X0"]
  {
    SolidCommand("G21");
    SolidCommand("G1 X10 Y5 F100");
    SolidCommand("G1 X0");
    assert Normalize("; comment") == "" by {
      assert Stripped("; comment");
    }
    CommentBetween("G21", "; comment", "G1 X10 Y5 F100", "G1 X0");
  }

  /** The example file yields three commands. */
  lemma ExampleCount()
    ensures |Commands(EXAMPLE_FILE)| == 3
  {
    ExampleCommands();
  }

  /** Four lines whose second is a comment give the commands of the other three. */
  lemma CommentBetween(a: string, b: string, c: string, d: string)
    requires a != "" && Normalize(a) == a && Normalize(b) == ""
    requires c != "" && Normalize(c) == c && d != "" && Normalize(d) == d
    ensures Commands([a, b, c, d]) == [a, c, d]
  {
    var lines := [a, b, c, d];
    assert Commands(lines[3..]) == [d] by {
      CommandsUnfold(lines[3..]);
      assert lines[3..][1..] == [];
    }
    assert Commands(lines[2..]) == [c, d] by {
      CommandsUnfold(lines[2..]);
      assert lines[2..][1..] == lines[3..];
    }
    assert Commands(lines[1..]) == [c, d] by {
      CommandsUnfold(lines[1..]);
      assert lines[1..][1..] == lines[2..];
    }
    CommandsUnfold(lines);
  }

  /** A trimmed line without ';' that does not start with '(' is sent as it is. */
  lemma SolidCommand(line: string)
    requires line != [] && Stripped(line) && ';' !in line && line[0] != '('
    ensures Normalize(line) == line
  {
  }

  /** Every command sent is non-empty, trimmed and free of ';'. */
  lemma {:induction false} CommandsWellFormed(lines: seq<string>)
    ensures forall i :: 0 <= i < |Commands(lines)| ==>
      Commands(lines)[i] != "" && Stripped(Commands(lines)[i]) && ';' !in Commands(lines)[i]
  {
    if lines != [] {
      NormalizeShape(lines[0]);
      CommandsWellFormed(lines[1..]);
    }
  }

  /** Each command comes from one file line. */
  lemma {:induction false} CommandsFromLines(lines: seq<string>, i: nat)
    requires i < |Commands(lines)|
    ensures exists j :: 0 <= j < |lines| && Commands(lines)[i] == Normalize(lines[j])
  {
    var rest := Commands(lines[1..]);
    if Normalize(lines[0]) == "" {
      assert Commands(lines) == rest;
      CommandsFromLines(lines[1..], i);
      var j :| 0 <= j < |lines[1..]| && rest[i] == Normalize(lines[1..][j]);
      assert lines[1..][j] == lines[j + 1];
    } else if i == 0 {
      assert Commands(lines)[0] == Normalize(lines[0]);
    } else {
      assert Commands(lines) == [Normalize(lines[0])] + rest;
      CommandsFromLines(lines[1..], i - 1);
      var j :| 0 <= j < |lines[1..]| && rest[i - 1] == Normalize(lines[1..][j]);
      assert lines[1..][j] == lines[j + 1];
    }
  }
}
