/**
 The clipboard text format of `copy_selection` and `paste_from_excel`: cells joined
 by tabs, rows ended by newlines, and a cell holding a comma, a newline or a double
 quote wrapped in double quotes with its own quotes doubled.
 */
module Clipboard {
  import opened Strings

  /** The cells `copy_selection` wraps in quotes. */
  predicate NeedsQuoting(s: string) {
    ',' in s || '\n' in s || '"' in s
  }

  /** `s.replace('"', '""')`. */
  function DoubleQuotes(s: string): (r: string)
    ensures forall c :: c != '"' ==> (c in r <==> c in s)
    ensures |r| >= |s|
    ensures |s| > 0 ==> r[0] == s[0]
  {
    if |s| == 0 then ""
    else (if s[0] == '"' then "\"\"" else [s[0]]) + DoubleQuotes(s[1..])
  }

  /** `s.replace('""', '"')`: pairs of quotes are collapsed left to right. */
  function CollapseQuotes(s: string): (r: string)
    ensures |r| <= |s|
    ensures forall c :: c in r ==> c in s
    ensures '"' !in s ==> r == s
  {
    if |s| >= 2 && s[0] == '"' && s[1] == '"' then "\"" + CollapseQuotes(s[2..])
    else if |s| == 0 then ""
    else [s[0]] + CollapseQuotes(s[1..])
  }

  /** Collapsing undoes doubling. */
  lemma {:induction false} CollapseDoubled(s: string)
    ensures CollapseQuotes(DoubleQuotes(s)) == s
    decreases |s|
  {
    if |s| > 0 {
      var rest := DoubleQuotes(s[1..]);
      CollapseDoubled(s[1..]);
      if s[0] == '"' {
        var d := "\"\"" + rest;
        assert d[2..] == rest;
      } else {
        var d := [s[0]] + rest;
        assert d[1..] == rest;
      }
      assert [s[0]] + s[1..] == s;
    }
  }

  /** One cell as `copy_selection` writes it (lines 470-472). */
  function Escape(s: string): (r: string)
    ensures r != s <==> NeedsQuoting(s)
    ensures NeedsQuoting(s) ==> |r| >= 2 && r[0] == '"' && r[|r| - 1] == '"'
    ensures '\t' in r <==> '\t' in s
    ensures '\n' in r <==> '\n' in s
    ensures StartsWithNonSpace(s) ==> StartsWithNonSpace(r)
    ensures EndsWithNonSpace(s) ==> EndsWithNonSpace(r)
  {
    if NeedsQuoting(s) then "\"" + DoubleQuotes(s) + "\"" else s
  }

  /** One cell as `paste_from_excel` reads it (lines 556-557): a text that starts and
      ends with a quote loses them and has its doubled quotes collapsed. A lone quote
      counts as both, so it becomes the empty string. */
  function Unescape(t: string): (r: string)
    ensures |r| <= |t|
    ensures forall c :: c in r ==> c in t
    ensures '"' !in t ==> r == t
    ensures !NeedsQuoting(t) ==> r == t
    ensures !(|t| >= 1 && t[0] == '"' && t[|t| - 1] == '"') ==> r == t
  {
    if |t| >= 1 && t[0] == '"' && t[|t| - 1] == '"' then
      var inner := if |t| >= 2 then t[1..|t| - 1] else "";
      assert forall c :: c in inner ==> c in t;
      CollapseQuotes(inner)
    else t
  }

  /** Reading a cell back gives exactly the text that was copied, for every text. */
  lemma EscapeRoundTrip(s: string)
    ensures Unescape(Escape(s)) == s
  {
    if NeedsQuoting(s) {
      var r := Escape(s);
      assert r[1..|r| - 1] == DoubleQuotes(s);
      CollapseDoubled(s);
    } else if |s| > 0 {
      assert s[0] != '"';
    }
  }

  function EscapeAll(cells: seq<string>): (r: seq<string>)
    ensures |r| == |cells|
    ensures forall j :: 0 <= j < |cells| ==> r[j] == Escape(cells[j])
  {
    seq(|cells|, j requires 0 <= j < |cells| => Escape(cells[j]))
  }

  /** One copied row: the escaped cells joined by tabs. */
  function EncodeRow(cells: seq<string>): (r: string)
    ensures |cells| >= 1 && (forall j :: 0 <= j < |cells| ==> '\t' !in cells[j]) ==>
      Split(r, '\t') == EscapeAll(cells)
    ensures (forall j :: 0 <= j < |cells| ==> '\n' !in cells[j]) ==> '\n' !in r
  {
    var escaped := EscapeAll(cells);
    assert |cells| >= 1 && (forall j :: 0 <= j < |cells| ==> '\t' !in cells[j]) ==>
      Split(Join(escaped, '\t'), '\t') == escaped by {
      if |cells| >= 1 && (forall j :: 0 <= j < |cells| ==> '\t' !in cells[j]) {
        SplitJoin(escaped, '\t');
      }
    }
    assert (forall j :: 0 <= j < |cells| ==> '\n' !in cells[j]) ==> '\n' !in Join(escaped, '\t') by {
      if forall j :: 0 <= j < |cells| ==> '\n' !in cells[j] {
        JoinAvoids(escaped, '\t', '\n');
      }
    }
    Join(escaped, '\t')
  }

  /** The clipboard text before it is stripped: every row followed by a newline. */
  function Serialize(block: seq<seq<string>>): (r: string)
    ensures |block| == 0 <==> r == ""
    ensures |block| > 0 ==> r[|r| - 1] == '\n'
  {
    if |block| == 0 then ""
    else
      var rest := Serialize(block[1..]);
      var r := EncodeRow(block[0]) + "\n" + rest;
      assert |rest| > 0 ==> r[|r| - 1] == rest[|rest| - 1];
      r
  }

  /** The text `copy_selection` puts on the clipboard for a block of cells: no
      whitespace at either edge, and empty for an empty selection. */
  function Encode(block: seq<seq<string>>): (r: string)
    ensures Strip(r) == r
    ensures |block| == 0 ==> r == ""
  {
    StripIdempotent(Serialize(block));
    Strip(Serialize(block))
  }

  /** One pasted row: split on tabs, each piece unescaped. */
  function DecodeRow(line: string): (cells: seq<string>)
    ensures |cells| >= 1
  {
    var pieces := Split(line, '\t');
    seq(|pieces|, j requires 0 <= j < |pieces| => Unescape(pieces[j]))
  }

  /** The block `paste_from_excel` reads from clipboard text (lines 519 and 550-557):
      the stripped text split on newlines, every line split into cells. */
  function Decode(text: string): (block: seq<seq<string>>)
    ensures |block| >= 1
    ensures forall i :: 0 <= i < |block| ==> |block[i]| >= 1
  {
    var lines := Split(Strip(text), '\n');
    seq(|lines|, i requires 0 <= i < |lines| => DecodeRow(lines[i]))
  }

  /** A character that no part holds is not in their join either. */
  lemma {:induction false} JoinAvoids(parts: seq<string>, sep: char, c: char)
    requires c != sep
    requires forall i :: 0 <= i < |parts| ==> c !in parts[i]
    ensures c !in Join(parts, sep)
    decreases |parts|
  {
    if |parts| > 1 {
      JoinAvoids(parts[1..], sep, c);
    }
  }

  /** The copied rows, one text per row. */
  function Lines(block: seq<seq<string>>): (lines: seq<string>)
    ensures |lines| == |block|
  {
    if |block| == 0 then [] else [EncodeRow(block[0])] + Lines(block[1..])
  }

  lemma {:induction false} LineAt(block: seq<seq<string>>, i: int)
    requires 0 <= i < |block|
    ensures Lines(block)[i] == EncodeRow(block[i])
    decreases i
  {
    if i > 0 {
      LineAt(block[1..], i - 1);
    }
  }

  /** The unstripped clipboard text is the rows joined by newlines plus one final newline. */
  lemma {:induction false} SerializeIsJoin(block: seq<seq<string>>)
    requires |block| >= 1
    ensures Serialize(block) == Join(Lines(block), '\n') + "\n"
    decreases |block|
  {
    if |block| > 1 {
      SerializeIsJoin(block[1..]);
      assert Lines(block)[1..] == Lines(block[1..]);
    }
  }

  /** Stripping a text that has no whitespace at either edge, plus a newline, removes
      just that newline. */
  lemma StripFinalNewline(x: string)
    requires StartsWithNonSpace(x) && EndsWithNonSpace(x)
    ensures Strip(x + "\n") == x
  {
    StripPadded("", x, "\n");
    assert "" + x + "\n" == x + "\n";
  }

  /** No cell of the block holds a tab or a newline. */
  ghost predicate PlainCells(block: seq<seq<string>>) {
    forall i, j :: 0 <= i < |block| && 0 <= j < |block[i]| ==> '\t' !in block[i][j] && '\n' !in block[i][j]
  }

  /** The block's first cell does not start, and its last cell does not end, with
      whitespace, so the final `strip()` removes nothing but the last newline. */
  ghost predicate UnpaddedEdges(block: seq<seq<string>>)
    requires |block| >= 1 && |block[0]| >= 1 && |block[|block| - 1]| >= 1
  {
    var first := block[0][0];
    var lastRow := block[|block| - 1];
    var last := lastRow[|lastRow| - 1];
    StartsWithNonSpace(first) && EndsWithNonSpace(last)
  }

  /** Pasting a copied row gives back its cells. */
  lemma DecodeEncodeRow(cells: seq<string>)
    requires |cells| >= 1
    requires forall j :: 0 <= j < |cells| ==> '\t' !in cells[j]
    ensures DecodeRow(EncodeRow(cells)) == cells
  {
    var escaped := EscapeAll(cells);
    SplitJoin(escaped, '\t');
    forall j | 0 <= j < |cells| ensures Unescape(escaped[j]) == cells[j] {
      EscapeRoundTrip(cells[j]);
    }
  }

  /** A copied row starts as its first cell does, or with a quote, and ends as its
      last cell does, or with a quote. */
  lemma EncodeRowEdges(cells: seq<string>)
    requires |cells| >= 1
    ensures StartsWithNonSpace(cells[0]) ==> StartsWithNonSpace(EncodeRow(cells))
    ensures EndsWithNonSpace(cells[|cells| - 1]) ==> EndsWithNonSpace(EncodeRow(cells))
  {
    var escaped := EscapeAll(cells);
    assert escaped[0] == Escape(cells[0]);
    assert escaped[|escaped| - 1] == Escape(cells[|cells| - 1]);
    JoinKeepsEdges(escaped, '\t');
  }

  /** The newline-joined rows start with the first cell's first character, or a
      quote, and end with the last cell's last character, or a quote. */
  lemma JoinedLinesEdges(block: seq<seq<string>>)
    requires |block| >= 1 && |block[0]| >= 1 && |block[|block| - 1]| >= 1
    ensures StartsWithNonSpace(block[0][0]) ==> StartsWithNonSpace(Join(Lines(block), '\n'))
    ensures var lastRow := block[|block| - 1];
      EndsWithNonSpace(lastRow[|lastRow| - 1]) ==> EndsWithNonSpace(Join(Lines(block), '\n'))
  {
    JoinedLinesStart(block);
    JoinedLinesEnd(block);
  }

  lemma JoinedLinesStart(block: seq<seq<string>>)
    requires |block| >= 1 && |block[0]| >= 1
    ensures StartsWithNonSpace(block[0][0]) ==> StartsWithNonSpace(Join(Lines(block), '\n'))
  {
    if StartsWithNonSpace(block[0][0]) {
      var lines := Lines(block);
      LineAt(block, 0);
      EncodeRowEdges(block[0]);
      JoinKeepsEdges(lines, '\n');
    }
  }

  lemma JoinedLinesEnd(block: seq<seq<string>>)
    requires |block| >= 1 && |block[|block| - 1]| >= 1
    ensures var lastRow := block[|block| - 1];
      EndsWithNonSpace(lastRow[|lastRow| - 1]) ==> EndsWithNonSpace(Join(Lines(block), '\n'))
  {
    var lastRow := block[|block| - 1];
    if EndsWithNonSpace(lastRow[|lastRow| - 1]) {
      var lines := Lines(block);
      LineAt(block, |block| - 1);
      EncodeRowEdges(lastRow);
      JoinKeepsEdges(lines, '\n');
    }
  }

  /** Under the edge condition the clipboard text is the rows joined by newlines. */
  lemma EncodeIsJoinedLines(block: seq<seq<string>>)
    requires |block| >= 1
    requires forall i :: 0 <= i < |block| ==> |block[i]| >= 1
    requires UnpaddedEdges(block)
    ensures Encode(block) == Join(Lines(block), '\n')
  {
    SerializeIsJoin(block);
    JoinedLinesEdges(block);
    StripFinalNewline(Join(Lines(block), '\n'));
  }

  /** Pasting the newline-joined rows gives the block back. */
  lemma DecodeJoinedLines(block: seq<seq<string>>)
    requires |block| >= 1
    requires forall i :: 0 <= i < |block| ==> |block[i]| >= 1
    requires PlainCells(block)
    requires UnpaddedEdges(block)
    ensures Decode(Join(Lines(block), '\n')) == block
  {
    var lines := Lines(block);
    JoinedLinesEdges(block);
    forall i | 0 <= i < |block| ensures '\n' !in lines[i] {
      LineAt(block, i);
      JoinAvoids(EscapeAll(block[i]), '\t', '\n');
    }
    SplitJoin(lines, '\n');
    forall i | 0 <= i < |block| ensures DecodeRow(lines[i]) == block[i] {
      LineAt(block, i);
      DecodeEncodeRow(block[i]);
    }
  }

  /** Copy then paste of a whole block is exact when every row has a cell, no cell
      holds a tab or newline, and the block's outer edges are not whitespace. */
  lemma DecodeEncode(block: seq<seq<string>>)
    requires |block| >= 1
    requires forall i :: 0 <= i < |block| ==> |block[i]| >= 1
    requires PlainCells(block)
    requires UnpaddedEdges(block)
    ensures Decode(Encode(block)) == block
  {
    EncodeIsJoinedLines(block);
    DecodeJoinedLines(block);
  }
}
