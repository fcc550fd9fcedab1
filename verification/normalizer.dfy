/** Pure text normalizers applied to the sentences before they are rendered:
    capitalization, full-width punctuation, A/B dialogue quoting and tab-separated
    tables turned into HTML tables. */
module Normalizer {
  import opened Strings

  // ---------------------------------------------------------------------------------
  // Capitalization
  // ---------------------------------------------------------------------------------

  /** `capitalize_first_char`: the first character replaced by its upper case, which
      `toUpper` (`char::to_uppercase`) may spell with several characters. */
  function CapitalizeFirstChar(text: string, toUpper: char -> string): (r: string)
    ensures |text| == 0 ==> r == ""
    ensures |text| > 0 ==> |r| == |toUpper(text[0])| + |text| - 1
    ensures |text| > 0 ==> r[..|toUpper(text[0])|] == toUpper(text[0])
    ensures |text| > 0 ==> r[|toUpper(text[0])|..] == text[1..]
  {
    if |text| == 0 then "" else toUpper(text[0]) + text[1..]
  }

  /** `toUpper` maps every character to one character, and upper case is its own upper case. */
  ghost predicate SingleCharIdempotent(toUpper: char -> string)
  {
    forall c :: |toUpper(c)| == 1 && toUpper(toUpper(c)[0]) == toUpper(c)
  }

  /** With a one-to-one idempotent upper case, capitalization changes only the first
      character and capitalizing twice is capitalizing once. */
  lemma CapitalizeIdempotent(text: string, toUpper: char -> string)
    requires SingleCharIdempotent(toUpper)
    ensures |CapitalizeFirstChar(text, toUpper)| == |text|
    ensures forall i :: 1 <= i < |text| ==> CapitalizeFirstChar(text, toUpper)[i] == text[i]
    ensures CapitalizeFirstChar(CapitalizeFirstChar(text, toUpper), toUpper) == CapitalizeFirstChar(text, toUpper)
  {
    if |text| > 0 {
      var r := CapitalizeFirstChar(text, toUpper);
      var u := toUpper(text[0]);
      assert r[0] == u[0];
      assert r[1..] == text[1..];
      assert toUpper(r[0]) == u;
    }
  }

  /** Capitalization touches only the head of the text: capitalizing a text followed by
      more text is capitalizing the text and then appending the rest unchanged. */
  lemma CapitalizeAppend(text: string, more: string, toUpper: char -> string)
    requires |text| > 0
    ensures CapitalizeFirstChar(text + more, toUpper) == CapitalizeFirstChar(text, toUpper) + more
  {
    assert (text + more)[0] == text[0];
    assert (text + more)[1..] == text[1..] + more;
  }

  /** A text whose first character already is its own one-character upper case is left
      as it is. */
  lemma CapitalizeFixed(text: string, toUpper: char -> string)
    requires |text| > 0 && toUpper(text[0]) == [text[0]]
    ensures CapitalizeFirstChar(text, toUpper) == text
  {
    assert [text[0]] + text[1..] == text;
  }

  // ---------------------------------------------------------------------------------
  // Full-width punctuation
  // ---------------------------------------------------------------------------------

  /** The full-width counterpart of an ASCII comma, question mark or exclamation mark;
      every other character is its own. */
  function FullWidth(c: char): char
  {
    if c == ',' then '\U{FF0C}' else if c == '?' then '\U{FF1F}' else if c == '!' then '\U{FF01}' else c
  }

  /** `normalize_chinese_punctuation`: commas, then question marks, then exclamation
      marks replaced by their full-width forms. */
  function NormalizeChinesePunctuation(s: string): (r: string)
    ensures ',' !in r && '?' !in r && '!' !in r
  {
    ReplaceChar(ReplaceChar(ReplaceChar(s, ',', "\U{FF0C}"), '?', "\U{FF1F}"), '!', "\U{FF01}")
  }

  /** Replacing a character by one character works character by character. */
  lemma {:induction false} ReplaceCharPointwise(s: string, c: char, d: char)
    ensures |ReplaceChar(s, c, [d])| == |s|
    ensures forall i :: 0 <= i < |s| ==> ReplaceChar(s, c, [d])[i] == if s[i] == c then d else s[i]
  {
    if |s| > 0 {
      ReplaceCharPointwise(s[1..], c, d);
    }
  }

  /** The normalizer maps each character to its full-width form and nothing else. */
  lemma PunctuationPointwise(s: string)
    ensures |NormalizeChinesePunctuation(s)| == |s|
    ensures forall i :: 0 <= i < |s| ==> NormalizeChinesePunctuation(s)[i] == FullWidth(s[i])
  {
    var s1 := ReplaceChar(s, ',', "\U{FF0C}");
    ReplaceCharPointwise(s, ',', '\U{FF0C}');
    var s2 := ReplaceChar(s1, '?', "\U{FF1F}");
    ReplaceCharPointwise(s1, '?', '\U{FF1F}');
    ReplaceCharPointwise(s2, '!', '\U{FF01}');
  }

  /** Normalizing punctuation twice is normalizing it once. */
  lemma PunctuationIdempotent(s: string)
    ensures NormalizeChinesePunctuation(NormalizeChinesePunctuation(s)) == NormalizeChinesePunctuation(s)
  {
    var r := NormalizeChinesePunctuation(s);
    PunctuationPointwise(s);
    PunctuationPointwise(r);
  }

  // ---------------------------------------------------------------------------------
  // A/B dialogue
  // ---------------------------------------------------------------------------------

  const TurnBreak: string := "\U{300D}\U{300C}"

  /** A sentence written as a dialogue: it opens with speaker `A` and holds a `B`. */
  predicate IsDialogue(s: string)
  {
    |s| > 0 && s[0] == 'A' && 'B' in s
  }

  /** `normalize_a_b_dialogue`: a dialogue loses its opening `A`, every speaker letter
      (with one space before it, if any) becomes a turn break, and the whole is quoted
      with corner brackets; any other sentence is left alone. */
  function NormalizeABDialogue(s: string): (r: string)
    ensures !IsDialogue(s) ==> r == s
    ensures IsDialogue(s) ==> |r| >= 2 && r[0] == '\U{300C}' && r[|r| - 1] == '\U{300D}'
    ensures IsDialogue(s) ==> r == "\U{300C}" + Turns(s[1..]) + "\U{300D}"
  {
    if IsDialogue(s) then
      DialogueBodyTurns(s[1..]);
      "\U{300C}" + DialogueBody(s[1..]) + "\U{300D}"
    else s
  }

  predicate IsSpeaker(c: char) { c == 'A' || c == 'B' }

  /** The dialogue body read in one left-to-right pass: a speaker letter, together with
      one space just before it, becomes a turn break; every other character stays. */
  function Turns(t: string): (r: string)
    decreases |t|
  {
    if |t| == 0 then ""
    else if |t| >= 2 && t[0] == ' ' && IsSpeaker(t[1]) then TurnBreak + Turns(t[2..])
    else if IsSpeaker(t[0]) then TurnBreak + Turns(t[1..])
    else [t[0]] + Turns(t[1..])
  }

  /** The same single pass for one speaker letter only. */
  function TurnsFor(t: string, l: char): string
    decreases |t|
  {
    if |t| == 0 then ""
    else if |t| >= 2 && t[0] == ' ' && t[1] == l then TurnBreak + TurnsFor(t[2..], l)
    else if t[0] == l then TurnBreak + TurnsFor(t[1..], l)
    else [t[0]] + TurnsFor(t[1..], l)
  }

  /** The four replacements made in order are the single pass: every ` B` and `B`, then
      every ` A` and `A`, comes out as a turn break. */
  lemma DialogueBodyTurns(t: string)
    ensures DialogueBody(t) == Turns(t)
  {
    var s1 := ReplaceStr(t, " B", TurnBreak);
    var s2 := ReplaceChar(s1, 'B', TurnBreak);
    var s3 := ReplaceStr(s2, " A", TurnBreak);
    SpeakerPass(t, 'B');
    SpeakerPass(s2, 'A');
    TwoPasses(t);
  }

  /** Replacing ` l` and then `l` is the single pass for `l`. */
  lemma {:induction false} SpeakerPass(t: string, l: char)
    requires l != ' ' && l !in TurnBreak
    ensures ReplaceChar(ReplaceStr(t, [' ', l], TurnBreak), l, TurnBreak) == TurnsFor(t, l)
    decreases |t|
  {
    var pat := [' ', l];
    if |t| == 0 {
      assert SplitStr(t, pat) == [""];
    } else if |t| >= 2 && t[0] == ' ' && t[1] == l {
      assert t == pat + t[2..];
      ReplaceStrPat(pat, t[2..], TurnBreak);
      ReplaceCharAppend(TurnBreak, ReplaceStr(t[2..], pat, TurnBreak), l, TurnBreak);
      SpeakerPass(t[2..], l);
    } else {
      ReplaceStrCons(t, pat, TurnBreak);
      ReplaceCharAppend([t[0]], ReplaceStr(t[1..], pat, TurnBreak), l, TurnBreak);
      assert ReplaceChar([t[0]], l, TurnBreak) == (if t[0] == l then TurnBreak else [t[0]]) by {
        assert [t[0]][1..] == "";
      }
      SpeakerPass(t[1..], l);
    }
  }

  /** The pass for `A` after the pass for `B` is the pass for both. */
  lemma {:induction false} TwoPasses(t: string)
    ensures TurnsFor(TurnsFor(t, 'B'), 'A') == Turns(t)
    decreases |t|
  {
    if |t| == 0 {
    } else if |t| >= 2 && t[0] == ' ' && t[1] == 'B' {
      TwoPasses(t[2..]);
      PassOverBreak(TurnsFor(t[2..], 'B'), 'A');
    } else if t[0] == 'B' {
      TwoPasses(t[1..]);
      PassOverBreak(TurnsFor(t[1..], 'B'), 'A');
    } else if |t| >= 2 && t[0] == ' ' && t[1] == 'A' {
      var w := TurnsFor(t[2..], 'B');
      assert t[1..][1..] == t[2..];
      assert TurnsFor(t[1..], 'B') == "A" + w;
      assert TurnsFor(t, 'B') == " A" + w;
      assert (" A" + w)[2..] == w;
      TwoPasses(t[2..]);
    } else {
      var w := TurnsFor(t[1..], 'B');
      assert TurnsFor(t, 'B') == [t[0]] + w;
      TurnsForHead(t[1..], 'B');
      assert ([t[0]] + w)[1..] == w;
      TwoPasses(t[1..]);
    }
  }

  /** The pass for `l` leaves a turn break as it is. */
  lemma PassOverBreak(w: string, l: char)
    requires l != ' ' && l !in TurnBreak
    ensures TurnsFor(TurnBreak + w, l) == TurnBreak + TurnsFor(w, l)
  {
    var u := [TurnBreak[1]] + w;
    assert (TurnBreak + w)[1..] == u;
    assert u[1..] == w;
  }

  /** The pass for `B` never starts its output with `A` unless the text did. */
  lemma TurnsForHead(t: string, l: char)
    requires l != 'A'
    ensures |TurnsFor(t, l)| > 0 && TurnsFor(t, l)[0] == 'A' ==> |t| > 0 && t[0] == 'A'
  {
  }

  /** The characters the dialogue normalizer writes or rewrites. */
  predicate IsDialogueMark(c: char)
  {
    c == ' ' || c == 'A' || c == 'B' || c == '\U{300C}' || c == '\U{300D}'
  }

  predicate IsNotB(c: char) { c != 'B' }

  /** The dialogue body: the four replacements in the order they are made. */
  function DialogueBody(t: string): (body: string)
    ensures 'A' !in body
  {
    ReplaceChar(ReplaceStr(ReplaceChar(ReplaceStr(t, " B", TurnBreak), 'B', TurnBreak), " A", TurnBreak), 'A', TurnBreak)
  }

  /** A dialogue keeps its words in order, and no speaker letter is left. */
  lemma DialogueKeepsWords(s: string)
    requires IsDialogue(s)
    ensures RemoveWhere(NormalizeABDialogue(s), IsDialogueMark) == RemoveWhere(s[1..], IsDialogueMark)
    ensures 'A' !in NormalizeABDialogue(s) && 'B' !in NormalizeABDialogue(s)
  {
    var body := DialogueBody(s[1..]);
    DialogueBodyKeeps(s[1..]);
    var r := NormalizeABDialogue(s);
    assert r == "\U{300C}" + body + "\U{300D}";
    RemoveWhereAppend("\U{300C}", body, IsDialogueMark);
    RemoveWhereAppend("\U{300C}" + body, "\U{300D}", IsDialogueMark);
    assert forall c :: c in r ==> c in body || c == '\U{300C}' || c == '\U{300D}';
  }

  /** The dialogue body keeps the words of the text in order and has no `B` left. */
  lemma DialogueBodyKeeps(t: string)
    ensures RemoveWhere(DialogueBody(t), IsDialogueMark) == RemoveWhere(t, IsDialogueMark)
    ensures 'B' !in DialogueBody(t)
  {
    var s1 := ReplaceStr(t, " B", TurnBreak);
    var s2 := ReplaceChar(s1, 'B', TurnBreak);
    var s3 := ReplaceStr(s2, " A", TurnBreak);
    DialogueMarksKept(t, s1, s2, s3);
    NoBAfterTurns(s2, s3);
  }

  /** The four replacements of the dialogue body each keep the non-mark characters. */
  lemma DialogueMarksKept(t: string, s1: string, s2: string, s3: string)
    requires s1 == ReplaceStr(t, " B", TurnBreak)
    requires s2 == ReplaceChar(s1, 'B', TurnBreak)
    requires s3 == ReplaceStr(s2, " A", TurnBreak)
    ensures RemoveWhere(ReplaceChar(s3, 'A', TurnBreak), IsDialogueMark) == RemoveWhere(t, IsDialogueMark)
  {
    ReplaceStrKeeps(t, " B", TurnBreak, IsDialogueMark);
    ReplaceCharKeeps(s1, 'B', TurnBreak, IsDialogueMark);
    ReplaceStrKeeps(s2, " A", TurnBreak, IsDialogueMark);
    ReplaceCharKeeps(s3, 'A', TurnBreak, IsDialogueMark);
  }

  /** Once every `B` is gone, replacing ` A` brings none back. */
  lemma NoBAfterTurns(s2: string, s3: string)
    requires 'B' !in s2
    requires s3 == ReplaceStr(s2, " A", TurnBreak)
    ensures 'B' !in s3
  {
    AbsentIffNothingKept(s2, 'B', IsNotB);
    ReplaceStrKeeps(s2, " A", TurnBreak, IsNotB);
    AbsentIffNothingKept(s3, 'B', IsNotB);
  }

  /** Replacing a pattern by a replacement that `p` both drops entirely leaves
      `RemoveWhere(_, p)` unchanged. */
  lemma ReplaceStrKeeps(s: string, pat: string, rep: string, p: char -> bool)
    requires |pat| > 0
    requires forall i :: 0 <= i < |pat| ==> p(pat[i])
    requires forall i :: 0 <= i < |rep| ==> p(rep[i])
    ensures RemoveWhere(ReplaceStr(s, pat, rep), p) == RemoveWhere(s, p)
  {
    JoinSplitStr(s, pat);
    RemoveWhereEmpty(pat, p);
    RemoveWhereEmpty(rep, p);
    JoinKeeps(SplitStr(s, pat), pat, rep, p);
  }

  /** Joining with separators that `p` drops entirely gives the same kept characters. */
  lemma {:induction false} JoinKeeps(ps: seq<string>, sep1: string, sep2: string, p: char -> bool)
    requires RemoveWhere(sep1, p) == RemoveWhere(sep2, p)
    ensures RemoveWhere(Join(ps, sep1), p) == RemoveWhere(Join(ps, sep2), p)
  {
    if |ps| > 1 {
      JoinKeeps(ps[1..], sep1, sep2, p);
      RemoveWhereAppend(ps[0] + sep1, Join(ps[1..], sep1), p);
      RemoveWhereAppend(ps[0], sep1, p);
      RemoveWhereAppend(ps[0] + sep2, Join(ps[1..], sep2), p);
      RemoveWhereAppend(ps[0], sep2, p);
    }
  }

  /** Replacing a character that `p` drops by characters `p` drops leaves
      `RemoveWhere(_, p)` unchanged. */
  lemma {:induction false} ReplaceCharKeeps(s: string, c: char, rep: string, p: char -> bool)
    requires p(c)
    requires forall i :: 0 <= i < |rep| ==> p(rep[i])
    ensures RemoveWhere(ReplaceChar(s, c, rep), p) == RemoveWhere(s, p)
  {
    if |s| > 0 {
      ReplaceCharKeeps(s[1..], c, rep, p);
      var head := if s[0] == c then rep else [s[0]];
      RemoveWhereAppend(head, ReplaceChar(s[1..], c, rep), p);
      RemoveWhereEmpty(rep, p);
      assert RemoveWhere([s[0]], p) == (if p(s[0]) then "" else [s[0]]) by {
        assert [s[0]][1..] == "";
      }
    }
  }

  /** `c` is absent exactly when keeping only the `c`s keeps nothing. */
  lemma {:induction false} AbsentIffNothingKept(s: string, c: char, p: char -> bool)
    requires forall d :: p(d) <==> d != c
    ensures c !in s <==> RemoveWhere(s, p) == ""
  {
    RemoveWhereEmpty(s, p);
    assert (forall i :: 0 <= i < |s| ==> p(s[i])) <==> c !in s;
  }

  /** Nothing is left after removing what `p` drops exactly when `p` drops every character. */
  lemma {:induction false} RemoveWhereEmpty(s: string, p: char -> bool)
    ensures RemoveWhere(s, p) == "" <==> forall i :: 0 <= i < |s| ==> p(s[i])
  {
    if |s| > 0 {
      RemoveWhereEmpty(s[1..], p);
      assert forall i :: 1 <= i < |s| ==> s[i] == s[1..][i - 1];
    }
  }

  // ---------------------------------------------------------------------------------
  // Tables
  // ---------------------------------------------------------------------------------

  predicate IsTab(c: char) { c == '\t' }
  predicate IsNewline(c: char) { c == '\n' }

  const RowOpen: string := "\t<tr><td>"
  const RowClose: string := "</td></tr>\n"
  const CellBreak: string := "</td><td>"

  /** `convert_line_breaks_and_tabs_into_trs_and_tds`: tabs become cell breaks, line
      breaks become row breaks, and the whole is wrapped as rows. */
  function TrsAndTds(s: string): (r: string)
    ensures |r| >= |RowOpen| + |RowClose|
    ensures r[..|RowOpen|] == RowOpen && r[|r| - |RowClose|..] == RowClose
    ensures '\n' !in s && '\t' !in s ==> r == RowOpen + s + RowClose
  {
    RowOpen + ReplaceChar(ReplaceChar(s, '\t', CellBreak), '\n', RowClose + RowOpen) + RowClose
  }

  /** One line of tab-separated cells as a table row. */
  function Row(line: string): string
  {
    RowOpen + Join(SplitWhere(line, IsTab), CellBreak) + RowClose
  }

  function Rows(lines: seq<string>): (r: seq<string>)
    ensures |r| == |lines|
  {
    seq(|lines|, i requires 0 <= i < |lines| => Row(lines[i]))
  }

  /** The rows are one per line of the input, each holding the line's cells. */
  lemma TrsAndTdsRows(s: string)
    ensures TrsAndTds(s) == Concat(Rows(SplitWhere(s, IsNewline)))
  {
    var lines := SplitWhere(s, IsNewline);
    var cells := CellTexts(lines);
    TabsReplaced(s);
    NewlineJoin(cells, RowClose + RowOpen);
    WrapJoin(cells, RowOpen, RowClose);
    RowsOfCells(lines);
  }

  /** Each line with its tabs turned into cell breaks. */
  function CellTexts(lines: seq<string>): (cells: seq<string>)
    ensures |cells| == |lines|
    ensures forall i :: 0 <= i < |lines| ==> cells[i] == ReplaceChar(lines[i], '\t', CellBreak)
  {
    seq(|lines|, i requires 0 <= i < |lines| => ReplaceChar(lines[i], '\t', CellBreak))
  }

  /** Turning the tabs into cell breaks leaves the lines joined by line breaks, none of
      which is inside a line. */
  lemma TabsReplaced(s: string)
    ensures var cells := CellTexts(SplitWhere(s, IsNewline));
      ReplaceChar(s, '\t', CellBreak) == Join(cells, "\n")
    ensures var cells := CellTexts(SplitWhere(s, IsNewline));
      forall i :: 0 <= i < |cells| ==> '\n' !in cells[i]
  {
    var lines := SplitWhere(s, IsNewline);
    JoinSplitWhere(s, '\n', IsNewline);
    ReplaceCharJoin(lines, "\n", '\t', CellBreak);
    assert CellTexts(lines) == seq(|lines|, i requires 0 <= i < |lines| => ReplaceChar(lines[i], '\t', CellBreak));
    CellsHoldNoNewline(lines);
  }

  /** Lines split at newlines hold none, and their cell texts hold none either. */
  lemma CellsHoldNoNewline(lines: seq<string>)
    requires NoneSatisfy(lines, IsNewline)
    ensures var cells := CellTexts(lines);
      forall i :: 0 <= i < |cells| ==> '\n' !in cells[i]
  {
    forall i | 0 <= i < |lines|
      ensures '\n' !in CellTexts(lines)[i]
    {
      assert forall j :: 0 <= j < |lines[i]| ==> !IsNewline(lines[i][j]);
      assert '\n' !in lines[i];
    }
  }

  /** Wrapping each line's cell text is building the row of each line. */
  lemma RowsOfCells(lines: seq<string>)
    ensures Rows(lines) == seq(|lines|, i requires 0 <= i < |lines| => RowOpen + CellTexts(lines)[i] + RowClose)
  {
    forall i | 0 <= i < |lines|
      ensures CellTexts(lines)[i] == Join(SplitWhere(lines[i], IsTab), CellBreak)
    {
      ReplaceCharAsJoin(lines[i], '\t', CellBreak, IsTab);
    }
  }

  /** Replacing the line breaks of lines joined with line breaks joins them with the
      replacement instead. */
  lemma NewlineJoin(ps: seq<string>, rep: string)
    requires |ps| >= 1
    requires forall i :: 0 <= i < |ps| ==> '\n' !in ps[i]
    ensures ReplaceChar(Join(ps, "\n"), '\n', rep) == Join(ps, rep)
  {
    forall i, j | 0 <= i < |ps| && 0 <= j < |ps[i]|
      ensures !IsNewline(ps[i][j])
    {
      assert ps[i][j] in ps[i];
    }
    SplitWhereJoin(ps, '\n', IsNewline);
    ReplaceCharAsJoin(Join(ps, "\n"), '\n', rep, IsNewline);
  }

  /** Wrapping a join whose separator closes one piece and opens the next is wrapping
      every piece. */
  lemma {:induction false} WrapJoin(ps: seq<string>, open: string, close: string)
    requires |ps| >= 1
    ensures open + Join(ps, close + open) + close ==
      Concat(seq(|ps|, i requires 0 <= i < |ps| => open + ps[i] + close))
  {
    var ws := seq(|ps|, i requires 0 <= i < |ps| => open + ps[i] + close);
    if |ps| > 1 {
      WrapJoin(ps[1..], open, close);
      assert ws[1..] == seq(|ps[1..]|, i requires 0 <= i < |ps[1..]| => open + ps[1..][i] + close);
      assert Concat(ws) == ws[0] + Concat(ws[1..]);
    } else {
      assert Concat(ws) == ws[0] + Concat([]);
    }
  }

  const TableOpen: string := "<table border=\"1\" cellpadding=\"5\" cellspacing=\"0\">\n"
  const TableClose: string := "</table>"

  /** `convert_line_breaks_and_tabs_into_single_table` */
  function SingleTable(s: string): (r: string)
    ensures r == TableOpen + Concat(Rows(SplitWhere(s, IsNewline))) + TableClose
  {
    TrsAndTdsRows(s);
    TableOpen + TrsAndTds(s) + TableClose
  }

  /** The separator between tables: an empty line. */
  const BlankLine: string := "\n\n"

  /** `convert_into_multiple_tables`: blocks separated by a blank line become tables
      separated by `<br>`. */
  function MultipleTables(s: string): (r: string)
    ensures |r| >= |TableOpen| + |TableClose|
    ensures r[..|TableOpen|] == TableOpen && r[|r| - |TableClose|..] == TableClose
  {
    var blocks := SplitStr(s, BlankLine);
    TablesJoinFramed(blocks);
    Join(Tables(blocks), "<br>")
  }

  /** The tables of at least one block, joined by `<br>`, open and close like a table. */
  lemma TablesJoinFramed(blocks: seq<string>)
    requires |blocks| >= 1
    ensures var j := Join(Tables(blocks), "<br>");
      |j| >= |TableOpen| + |TableClose| && j[..|TableOpen|] == TableOpen && j[|j| - |TableClose|..] == TableClose
  {
    TablesFramed(blocks);
    JoinFramed(Tables(blocks), "<br>", TableOpen, TableClose);
  }

  /** Every table opens with `TableOpen` and closes with `TableClose`. */
  lemma TablesFramed(blocks: seq<string>)
    ensures forall i :: 0 <= i < |blocks| ==> var t := Tables(blocks)[i];
      |t| >= |TableOpen| + |TableClose| && t[..|TableOpen|] == TableOpen && t[|t| - |TableClose|..] == TableClose
  {
    forall i | 0 <= i < |blocks|
      ensures var t := Tables(blocks)[i];
        |t| >= |TableOpen| + |TableClose| && t[..|TableOpen|] == TableOpen && t[|t| - |TableClose|..] == TableClose
    {
      var t := SingleTable(blocks[i]);
      var body := Concat(Rows(SplitWhere(blocks[i], IsNewline)));
      assert t == TableOpen + body + TableClose;
      assert t[..|TableOpen|] == TableOpen;
      assert t[|t| - |TableClose|..] == TableClose;
    }
  }

  /** Pieces that all open with `open` and close with `close` join to a text that does too. */
  lemma {:induction false} JoinFramed(ts: seq<string>, sep: string, open: string, close: string)
    requires |ts| >= 1
    requires forall i :: 0 <= i < |ts| ==>
      |ts[i]| >= |open| + |close| && ts[i][..|open|] == open && ts[i][|ts[i]| - |close|..] == close
    ensures var j := Join(ts, sep);
      |j| >= |open| + |close| && j[..|open|] == open && j[|j| - |close|..] == close
  {
    if |ts| > 1 {
      assert forall i :: 0 <= i < |ts| - 1 ==> ts[1..][i] == ts[i + 1];
      JoinFramed(ts[1..], sep, open, close);
      var rest := Join(ts[1..], sep);
      var j := Join(ts, sep);
      assert j == ts[0] + sep + rest;
      assert j[..|open|] == ts[0][..|open|];
      assert j[|j| - |close|..] == rest[|rest| - |close|..];
    }
  }

  /** One table per block. */
  function Tables(blocks: seq<string>): (ts: seq<string>)
    ensures |ts| == |blocks| && forall i :: 0 <= i < |blocks| ==> ts[i] == SingleTable(blocks[i])
  {
    seq(|blocks|, i requires 0 <= i < |blocks| => SingleTable(blocks[i]))
  }

  /** Blocks written one after another with a blank line between them, none holding a
      blank line itself or ending in a newline, come out as their tables in the same
      order, separated by `<br>`. */
  lemma MultipleTablesBlocks(blocks: seq<string>, text: string)
    requires |blocks| >= 1
    requires forall i :: 0 <= i < |blocks| ==> CleanPiece(blocks[i], BlankLine)
    requires text == Join(blocks, BlankLine)
    ensures MultipleTables(text) == Join(Tables(blocks), "<br>")
  {
    BlocksSplitBack(blocks);
    TablesOfBlocks(text, blocks);
  }

  /** Splitting the blocks' join on blank lines gives the blocks back. */
  lemma BlocksSplitBack(blocks: seq<string>)
    requires |blocks| >= 1
    requires forall i :: 0 <= i < |blocks| ==> CleanPiece(blocks[i], BlankLine)
    ensures SplitStr(Join(blocks, BlankLine), BlankLine) == blocks
  {
    SplitStrJoinDoubled(blocks, BlankLine);
  }

  lemma TablesOfBlocks(text: string, blocks: seq<string>)
    requires SplitStr(text, BlankLine) == blocks
    ensures MultipleTables(text) == Join(Tables(blocks), "<br>")
  {
  }

  /** A text without a blank line is a single table. */
  lemma MultipleTablesSingle(s: string)
    requires !ContainsStr(s, BlankLine)
    ensures MultipleTables(s) == SingleTable(s)
  {
    SplitStrNoOccurrence(s, BlankLine);
  }
}
