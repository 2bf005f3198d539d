/** What the chat loop does with one input line before anything reaches the
    model: blank lines are skipped, four slash-commands are recognised in any
    letter case and with surrounding whitespace, and anything else is a
    prompt. */
module Commands {
  import opened Text

  datatype Command = Blank | Quit | Help | Clear | ShowHistory | Prompt(text: string)

  /** The form a line is compared in: `line.strip().lower()`. */
  function Keyword(line: string): string {
    Lower(Strip(line))
  }

  /** `s.lower() == word`, compared character by character. */
  predicate EqualsLowered(s: string, word: string) {
    |s| == |word| && forall i :: 0 <= i < |s| ==> LowerChar(s[i]) == word[i]
  }

  /** The character-wise comparison is the comparison of the lowered string. */
  lemma {:induction false} EqualsLoweredIffLower(s: string, word: string)
    ensures EqualsLowered(s, word) <==> Lower(s) == word
    decreases |s|
  {
    if s != [] && |s| == |word| {
      EqualsLoweredIffLower(s[1..], word[1..]);
      if EqualsLowered(s, word) {
        assert EqualsLowered(s[1..], word[1..]) by {
          forall i | 0 <= i < |s| - 1 ensures LowerChar(s[1..][i]) == word[1..][i] {
            assert s[1..][i] == s[i + 1];
          }
        }
        assert word == [word[0]] + word[1..];
      }
      if Lower(s) == word {
        assert LowerChar(s[0]) == word[0];
        assert Lower(s[1..]) == word[1..];
        forall i | 0 <= i < |s| ensures LowerChar(s[i]) == word[i] {
          if i > 0 {
            assert s[i] == s[1..][i - 1];
          }
        }
      }
    }
  }

  /** The command an input line selects, tested in the order the loop tests
      them. */
  function Recognize(line: string): Command {
    var s := Strip(line);
    if s == [] then Blank
    else if EqualsLowered(s, "/quit") then Quit
    else if EqualsLowered(s, "/help") then Help
    else if EqualsLowered(s, "/clear") then Clear
    else if EqualsLowered(s, "/history") then ShowHistory
    else Prompt(line)
  }

  /** A line is skipped exactly when it is whitespace only; each command is
      selected exactly when the stripped, lowered line is its word; every
      other line is a prompt that carries the line as typed. */
  lemma RecognizeMeaning(line: string)
    ensures Recognize(line) == Blank <==> AllSpace(line)
    ensures Recognize(line) == Quit <==> !AllSpace(line) && Keyword(line) == "/quit"
    ensures Recognize(line) == Help <==> !AllSpace(line) && Keyword(line) == "/help"
    ensures Recognize(line) == Clear <==> !AllSpace(line) && Keyword(line) == "/clear"
    ensures Recognize(line) == ShowHistory <==> !AllSpace(line) && Keyword(line) == "/history"
    ensures Recognize(line).Prompt? <==>
              !AllSpace(line) && Keyword(line) !in {"/quit", "/help", "/clear", "/history"}
    ensures Recognize(line).Prompt? ==> Recognize(line).text == line
  {
    StripEmptyIffAllSpace(line);
    var s := Strip(line);
    EqualsLoweredIffLower(s, "/quit");
    EqualsLoweredIffLower(s, "/help");
    EqualsLoweredIffLower(s, "/clear");
    EqualsLoweredIffLower(s, "/history");
  }

  /** A command word in any letter case, padded with whitespace on either
      side, selects the same command as the word itself; a padded line that
      is not a command is sent as typed, padding included. */
  lemma RecognizePadded(pre: string, w: string, post: string)
    requires AllSpace(pre) && AllSpace(post)
    requires w != [] && !IsSpace(w[0]) && !IsSpace(w[|w| - 1])
    ensures Keyword(pre + w + post) == Lower(w)
    ensures Recognize(pre + w + post) ==
              if Recognize(w).Prompt? then Prompt(pre + w + post) else Recognize(w)
  {
    var line := pre + w + post;
    assert Strip(line) == w by {
      StripRemovesPadding(pre, w, post);
    }
    assert Strip(w) == w by {
      StripRemovesPadding([], w, []);
      assert [] + w + [] == w;
    }
    SameStripSameCommand(line, w);
  }

  /** Lines that strip to the same text select the same command, except
      that a prompt carries its own line. */
  lemma SameStripSameCommand(line: string, w: string)
    requires Strip(line) == Strip(w)
    ensures Recognize(line) == if Recognize(w).Prompt? then Prompt(line) else Recognize(w)
  {
  }

  /** "/QUIT" typed with spaces before it and a tab after it ends the
      session. */
  lemma UpperCaseQuitWithPadding()
    ensures Recognize("  /QUIT\t") == Quit
  {
    var w := "/QUIT";
    assert AllSpace("  ") && AllSpace("\t") && !IsSpace(w[0]) && !IsSpace(w[4]);
    RecognizePadded("  ", w, "\t");
    assert "  " + w + "\t" == "  /QUIT\t";
    assert EqualsLowered(w, "/quit");
  }
}
