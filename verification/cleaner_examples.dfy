/** Worked examples of the two cleaners on short replies, each traced stage by stage. */
module CleanerExamples {
  import opened PyStrings
  import opened NewsCleaner
  import ChatCleaner

  /** Printable ASCII text, single-spaced and without a backslash, passes lines 45-48 unchanged. */
  lemma {:induction false} PrintableKept(s: string)
    requires forall i :: 0 <= i < |s| ==> ' ' <= s[i] <= '~' && s[i] != '\\'
    requires s != [] ==> s[0] != ' ' && s[|s| - 1] != ' '
    requires forall i, j :: 0 <= i < j < |s| && j == i + 1 ==> s[i] != ' ' || s[j] != ' '
    ensures Collapse(s) == s && Delete(s, "\\") == s
  {
    assert SingleSpaced(s);
    CollapseFixesSingleSpaced(s);
    DeleteMissingChar(s, "\\", '\\');
  }

  /** Line 49 on a reply opening with "```python". */
  lemma {:induction false} PythonFenceOpened(s: string)
    requires s == "```python"
    ensures Delete(s, "```") == "python"
  {
    assert s[..3] == "```" && s[3..] == "python";
    DeleteHit(s, "```");
    DeleteMissingChar("python", "```", '`');
  }

  /** Lines 53-55 on a text holding neither "j" nor ":". */
  lemma {:induction false} TailKept(p: string)
    requires 'j' !in p && ':' !in p
    ensures Delete(p, "json") == p && Delete(p, "https://") == p && Delete(p, "https:") == p
  {
    DeleteMissingChar(p, "json", 'j');
    DeleteMissingChar(p, "https://", ':');
    DeleteMissingChar(p, "https:", ':');
  }

  /** The tag of a fenced block survives: lines 50-52 never fire, so a reply opening with
      "```python" keeps the word "python" in front of its JSON. */
  lemma {:induction false} PythonTagSurvives(s: string)
    requires s == "```python"
    ensures CleanText(s) == "python"
  {
    PrintableKept(s);
    PythonFenceOpened(s);
    TailKept("python");
    CleanTextByStages(s, s, s, "python", "python", "python", "python");
  }

  /** Lines 49 and 53 on "a json b". */
  lemma {:induction false} JsonWordDeleted(s: string)
    requires s == "a json b"
    ensures Delete(s, "```") == s && Delete(s, "json") == "a  b"
  {
    DeleteMissingChar(s, "```", '`');
    assert s[..4] == "a js" && s[1..] == " json b";
    DeleteMiss(s, "json");
    assert s[1..][..4] == " jso" && s[1..][1..] == "json b";
    DeleteMiss(s[1..], "json");
    assert s[2..][..4] == "json" && s[2..][4..] == " b";
    DeleteHit(s[2..], "json");
    assert Delete(" b", "json") == " b";
  }

  /** Line 53 deletes "json" wherever it stands, not only after a fence; the deletion can
      leave two spaces in a row behind. */
  lemma {:induction false} JsonDeletedAnywhere(s: string)
    requires s == "a json b"
    ensures CleanText(s) == "a  b"
  {
    JsonWordDeleted(s);
    TailKept("a  b");
    PrintableKept(s);
    CleanTextByStages(s, s, s, s, "a  b", "a  b", "a  b");
  }

  /** Line 54 on "x https://y". */
  lemma {:induction false} HttpsLinkDeleted(s: string)
    requires s == "x https://y"
    ensures Delete(s, "https://") == "x y"
  {
    assert s[..8] == "x https:" && s[1..] == " https://y";
    DeleteMiss(s, "https://");
    assert s[1..][..8] == " https:/" && s[1..][1..] == "https://y";
    DeleteMiss(s[1..], "https://");
    assert s[2..][..8] == "https://" && s[2..][8..] == "y";
    DeleteHit(s[2..], "https://");
    assert Delete("y", "https://") == "y";
  }

  /** Lines 49-55 on "x https://y". */
  lemma {:induction false} HttpsStages(s: string)
    requires s == "x https://y"
    ensures Delete(s, "```") == s && Delete(s, "json") == s
    ensures Delete(s, "https://") == "x y" && Delete("x y", "https:") == "x y"
  {
    DeleteMissingChar(s, "```", '`');
    DeleteMissingChar(s, "json", 'j');
    HttpsLinkDeleted(s);
    DeleteMissingChar("x y", "https:", 'h');
  }

  /** Lines 54-55 drop "https://". */
  lemma {:induction false} HttpsDropped(s: string)
    requires s == "x https://y"
    ensures CleanText(s) == "x y"
  {
    HttpsStages(s);
    PrintableKept(s);
    CleanTextByStages(s, s, s, s, s, "x y", "x y");
  }

  /** Lines 49-55 on "http://x": every pattern has a character the text lacks. */
  lemma {:induction false} HttpStages(h: string)
    requires h == "http://x"
    ensures Delete(h, "```") == h && Delete(h, "json") == h
    ensures Delete(h, "https://") == h && Delete(h, "https:") == h
  {
    DeleteMissingChar(h, "```", '`');
    DeleteMissingChar(h, "json", 'j');
    DeleteMissingChar(h, "https://", 's');
    DeleteMissingChar(h, "https:", 's');
  }

  /** Lines 54-55 keep "http://": only the secure scheme is deleted. */
  lemma {:induction false} HttpKept(h: string)
    requires h == "http://x"
    ensures CleanText(h) == h
  {
    HttpStages(h);
    PrintableKept(h);
    CleanTextByStages(h, h, h, h, h, h, h);
  }

  /** Line 49 on "``json`": no run of three backticks, so nothing goes. */
  lemma {:induction false} ShortFenceKept(s: string)
    requires s == "``json`"
    ensures Delete(s, "```") == s
  {
    assert s[..3] == "``j" && s[1..] == "`json`";
    DeleteMiss(s, "```");
    assert s[1..][..3] == "`js" && s[1..][1..] == "json`";
    DeleteMiss(s[1..], "```");
    DeleteMiss("json`", "```");
    assert "json`"[1..] == "son`";
    DeleteMiss("son`", "```");
    assert "son`"[1..] == "on`";
    DeleteMiss("on`", "```");
    assert "on`"[1..] == "n`";
    assert Delete("n`", "```") == "n`";
  }

  /** Line 53 on "``json`": the backticks on either side of "json" close up. */
  lemma {:induction false} SplitFenceJoined(s: string)
    requires s == "``json`"
    ensures Delete(s, "json") == "```"
  {
    assert s[..4] == "``js";
    DeleteMiss(s, "json");
    assert s[1..][..4] == "`jso";
    DeleteMiss(s[1..], "json");
    assert s[2..] == "json`" && s[2..][..4] == "json" && s[2..][4..] == "`";
    DeleteHit(s[2..], "json");
    assert Delete("`", "json") == "`";
  }

  /** The deletions after line 49 can put a fence back together: "``json`" comes out as "```". */
  lemma {:induction false} FenceCanReappear(s: string)
    requires s == "``json`"
    ensures CleanText(s) == "```"
  {
    ShortFenceKept(s);
    SplitFenceJoined(s);
    DeleteMissingChar("```", "https://", 'h');
    DeleteMissingChar("```", "https:", 'h');
    PrintableKept(s);
    CleanTextByStages(s, s, s, s, "```", "```", "```");
  }

  /** The consumer's cleaner is the chat service's cleaner followed by deleting fences,
      "json", "https://" and "https:". */
  lemma {:induction false} ConsumerCleanerExtendsChatCleaner(s: string)
    ensures CleanText(s)
         == Delete(Delete(Delete(Delete(ChatCleaner.CleanerText(s), "```"), "json"), "https://"), "https:")
  {
    CleanTextShortened(s);
    ChatCleaner.SpaceRewritesAreNoOps(s);
  }

  /** The chat cleaner keeps the fence and its tag: "```json {}" passes unchanged. */
  lemma {:induction false} ChatCleanerKeepsFence(s: string)
    requires s == "```json {}"
    ensures ChatCleaner.CleanerText(s) == s
  {
    PrintableKept(s);
    ChatCleaner.SpaceRewritesAreNoOps(s);
  }

  /** Line 35 on "a \\ b". */
  lemma {:induction false} LoneBackslashDeleted(s: string)
    requires s == "a \\ b"
    ensures Delete(s, "\\") == "a  b"
  {
    assert s[..1] == "a" && s[1..] == " \\ b";
    DeleteMiss(s, "\\");
    assert s[1..][..1] == " " && s[1..][1..] == "\\ b";
    DeleteMiss(s[1..], "\\");
    assert s[2..][..1] == "\\" && s[2..][1..] == " b";
    DeleteHit(s[2..], "\\");
    DeleteMissingChar(" b", "\\", '\\');
  }

  /** Deleting a backslash that stood between two spaces leaves a double space: line 35 runs
      after the whitespace has been tidied. */
  lemma {:induction false} BackslashLeavesDoubleSpace(s: string)
    requires s == "a \\ b"
    ensures ChatCleaner.CleanerText(s) == "a  b"
  {
    assert SingleSpaced(s);
    CollapseFixesSingleSpaced(s);
    LoneBackslashDeleted(s);
    ChatCleaner.SpaceRewritesAreNoOps(s);
  }
}
