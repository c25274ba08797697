/** `clean_json` of the queue consumer: a fixed chain of string rewrites applied to the
    model's reply, then one strict JSON parse; the cleaned text comes back when parsing fails. */
module NewsCleaner {
  import opened PyStrings
  import opened PyValues

  /** Lines 45-47: whitespace collapsed, then two replacements meant to tidy spaces. */
  function SpacesTidied(data: string): string
  {
    Replace(Replace(Collapse(data), "\n", " "), "  ", " ")
  }

  /** Line 48: every backslash deleted. */
  function Unescaped(data: string): string
  {
    Delete(SpacesTidied(data), "\\")
  }

  /** Line 49: every run of three backticks deleted. */
  function Unfenced(data: string): string
  {
    Delete(Unescaped(data), "```")
  }

  /** Lines 50-52: fences carrying a language tag deleted. */
  function TagsDropped(data: string): string
  {
    Delete(Delete(Delete(Unfenced(data), "```python"), "```json"), "```yaml")
  }

  /** Lines 53-55: `json`, `https://` and `https:` deleted wherever they occur. */
  function CleanText(data: string): string
  {
    Delete(Delete(Delete(TagsDropped(data), "json"), "https://"), "https:")
  }

  /** Lines 43-62: parse the cleaned text; whatever the parser raises, hand back the cleaned
      text. Nothing escapes: the result is always one of the two. */
  function CleanJson(data: string, loads: string -> ParseOutcome): (r: Cleaned)
    ensures r.Json? <==> loads(CleanText(data)).Parsed?
    ensures r.Json? ==> r.value == loads(CleanText(data)).value
    ensures r.Text? ==> r.text == CleanText(data)
  {
    match loads(CleanText(data))
    case Parsed(v) => Json(v)
    case Rejected => Text(CleanText(data))
    case Raised(_) => Text(CleanText(data))
  }

  /** The text `clean_json` hands back holds no backslash, no whitespace but the plain space,
      and is never longer than the reply. */
  lemma {:induction false} CleanJsonTextShape(data: string, loads: string -> ParseOutcome)
    requires CleanJson(data, loads).Text?
    ensures var t := CleanJson(data, loads).text;
            && '\\' !in t && |t| <= |data|
            && forall i :: 0 <= i < |t| && IsSpace(t[i]) ==> t[i] == ' '
  {
    CleanTextHasNoControl(data);
    CleanTextNotLonger(data);
  }

  /** After line 45 there is no newline and no double space, so lines 46 and 47 change nothing. */
  lemma {:induction false} SpaceRewritesAreNoOps(data: string)
    ensures SpacesTidied(data) == Collapse(data)
    ensures SingleSpaced(SpacesTidied(data))
  {
    var c := Collapse(data);
    CollapseSingleSpaced(data);
    assert '\n' !in c by {
      forall i | 0 <= i < |c| ensures c[i] != '\n' {
        assert IsSpace(c[i]) ==> c[i] == ' ';
      }
    }
    ContainsChar(c, '\n');
    ReplaceAbsent(c, "\n", " ");
    SingleSpacedNoDoubleSpace(c);
    ReplaceAbsent(c, "  ", " ");
  }

  /** After line 49 no three backticks remain, so the tagged-fence deletions of lines 50-52
      never match: the tags `python` and `yaml` survive, and `json` survives until line 53. */
  lemma {:induction false} TagRewritesAreNoOps(data: string)
    ensures !Contains(Unfenced(data), "```")
    ensures TagsDropped(data) == Unfenced(data)
  {
    DeleteFenceLeavesNone(Unescaped(data));
    TaggedFencesAbsent(Unfenced(data));
  }

  /** Without a plain fence there is no tagged fence to delete. */
  lemma {:induction false} TaggedFencesAbsent(u: string)
    requires !Contains(u, "```")
    ensures Delete(Delete(Delete(u, "```python"), "```json"), "```yaml") == u
  {
    TaggedFenceAbsent(u, "python");
    assert "```" + "python" == "```python";
    TaggedFenceAbsent(u, "json");
    assert "```" + "json" == "```json";
    TaggedFenceAbsent(u, "yaml");
    assert "```" + "yaml" == "```yaml";
  }

  /** Without a plain fence a fence with the given tag is absent too. */
  lemma {:induction false} TaggedFenceAbsent(u: string, tag: string)
    requires !Contains(u, "```")
    ensures Delete(u, "```" + tag) == u
  {
    ContainsPrefixOfPattern(u, "```", tag);
    ReplaceAbsent(u, "```" + tag, "");
  }

  /** Every character of `Delete(s, p)` comes from `s`. */
  lemma {:induction false} DeleteCharsFrom(s: string, p: string)
    ensures forall c :: c in Delete(s, p) ==> c in s
  {
    DeleteShrinks(s, p);
    forall c | c in Delete(s, p) ensures c in s {
      assert c in multiset(Delete(s, p));
    }
  }

  /** The cleaned text holds no backslash, and its only whitespace is the plain space:
      no newline, tab or carriage return survives, since every step after line 48 only deletes. */
  lemma {:induction false} CleanTextHasNoControl(data: string)
    ensures '\\' !in CleanText(data)
    ensures forall i :: 0 <= i < |CleanText(data)| && IsSpace(CleanText(data)[i]) ==> CleanText(data)[i] == ' '
  {
    SpaceRewritesAreNoOps(data);
    var s3 := SpacesTidied(data);
    var s4 := Unescaped(data);
    DeleteCharRemovesAll(s3, '\\');
    DeleteCharsFrom(s3, "\\");
    var s5 := Delete(s4, "```");
    DeleteCharsFrom(s4, "```");
    var s6 := Delete(s5, "```python");
    DeleteCharsFrom(s5, "```python");
    var s7 := Delete(s6, "```json");
    DeleteCharsFrom(s6, "```json");
    var s8 := Delete(s7, "```yaml");
    DeleteCharsFrom(s7, "```yaml");
    var s9 := Delete(s8, "json");
    DeleteCharsFrom(s8, "json");
    var s10 := Delete(s9, "https://");
    DeleteCharsFrom(s9, "https://");
    var s11 := Delete(s10, "https:");
    DeleteCharsFrom(s10, "https:");
    assert s11 == CleanText(data);
    forall i | 0 <= i < |s11| && IsSpace(s11[i]) ensures s11[i] == ' ' {
      var c := s11[i];
      assert c in s3;
      var j :| 0 <= j < |s3| && s3[j] == c;
    }
  }

  /** The cleaned text is never longer than the reply it came from. */
  lemma {:induction false} CleanTextNotLonger(data: string)
    ensures |CleanText(data)| <= |data|
  {
    SpaceRewritesAreNoOps(data);
    CollapseNotLonger(data);
    var s3 := SpacesTidied(data);
    DeleteShrinks(s3, "\\");
    var s4 := Unescaped(data);
    DeleteShrinks(s4, "```");
    var s5 := Delete(s4, "```");
    DeleteShrinks(s5, "```python");
    var s6 := Delete(s5, "```python");
    DeleteShrinks(s6, "```json");
    var s7 := Delete(s6, "```json");
    DeleteShrinks(s7, "```yaml");
    var s8 := Delete(s7, "```yaml");
    DeleteShrinks(s8, "json");
    var s9 := Delete(s8, "json");
    DeleteShrinks(s9, "https://");
    var s10 := Delete(s9, "https://");
    DeleteShrinks(s10, "https:");
  }

  /** With lines 46-47 and 50-52 dropped as no-ops, the cleaner is collapse-whitespace
      followed by five deletions. */
  lemma {:induction false} CleanTextShortened(data: string)
    ensures CleanText(data)
         == Delete(Delete(Delete(Delete(Delete(Collapse(data), "\\"), "```"), "json"), "https://"), "https:")
  {
    SpaceRewritesAreNoOps(data);
    TagRewritesAreNoOps(data);
  }

  /** The cleaner traced stage by stage: given the result of each surviving stage, the
      cleaned text is the last one. */
  lemma {:induction false} CleanTextByStages(data: string, a: string, b: string, c: string, d: string, e: string, f: string)
    requires Collapse(data) == a && Delete(a, "\\") == b && Delete(b, "```") == c
    requires Delete(c, "json") == d && Delete(d, "https://") == e && Delete(e, "https:") == f
    ensures CleanText(data) == f
  {
    CleanTextShortened(data);
  }

  /** Line 53 changes the text exactly when "json" occurs in it, and then drops at least
      the four letters of one occurrence. */
  lemma {:induction false} JsonStepFiresIffPresent(s: string)
    ensures Delete(s, "json") == s <==> !Contains(s, "json")
    ensures Contains(s, "json") ==> |Delete(s, "json")| <= |s| - 4
  {
    DeleteChangesIffContains(s, "json");
  }

  /** Lines 54-55 delete the secure scheme only: a plain "http://" link keeps its scheme, and
      none of them is lost. */
  lemma {:induction false} HttpSurvivesSchemeDeletion(t: string)
    ensures Contains(t, "http://") ==> Contains(Delete(Delete(t, "https://"), "https:"), "http://")
    ensures Occurrences(Delete(Delete(t, "https://"), "https:"), "http://") >= Occurrences(t, "http://")
  {
    if Contains(t, "http://") {
      DeleteKeepsPiece(t, "https://", "http://", 4);
      DeleteKeepsPiece(Delete(t, "https://"), "https:", "http://", 4);
    }
    DeleteKeepsOccurrences(t, "https://", "http://", 4);
    DeleteKeepsOccurrences(Delete(t, "https://"), "https:", "http://", 4);
  }

  /** The five deletions that follow the collapse keep every plain "http://": none of their
      patterns can overlap it, so the number of them never drops. */
  lemma {:induction false} DeletionsKeepHttp(a: string)
    ensures Contains(a, "http://")
        ==> Contains(Delete(Delete(Delete(Delete(Delete(a, "\\"), "```"), "json"), "https://"), "https:"), "http://")
    ensures Occurrences(Delete(Delete(Delete(Delete(Delete(a, "\\"), "```"), "json"), "https://"), "https:"), "http://")
         >= Occurrences(a, "http://")
  {
    var b := Delete(a, "\\");
    var c := Delete(b, "```");
    if Contains(a, "http://") {
      DeleteKeepsPiece(a, "\\", "http://", 0);
      DeleteKeepsPiece(b, "```", "http://", 0);
      DeleteKeepsPiece(c, "json", "http://", 0);
    }
    DeleteKeepsOccurrences(a, "\\", "http://", 0);
    DeleteKeepsOccurrences(b, "```", "http://", 0);
    DeleteKeepsOccurrences(c, "json", "http://", 0);
    HttpSurvivesSchemeDeletion(Delete(c, "json"));
  }

  /** Each "http://" of the collapsed text passes the five deletions in place: the text before
      it and the text after it are cleaned on their own. */
  lemma {:induction false} DeletionsAroundHttp(u: string, v: string)
    ensures Delete(Delete(Delete(Delete(Delete(u + "http://" + v, "\\"), "```"), "json"), "https://"), "https:")
         == Delete(Delete(Delete(Delete(Delete(u, "\\"), "```"), "json"), "https://"), "https:")
            + "http://"
            + Delete(Delete(Delete(Delete(Delete(v, "\\"), "```"), "json"), "https://"), "https:")
  {
    var u1, v1 := Delete(u, "\\"), Delete(v, "\\");
    DeleteAround(u, "http://", v, "\\", 0);
    var u2, v2 := Delete(u1, "```"), Delete(v1, "```");
    DeleteAround(u1, "http://", v1, "```", 0);
    var u3, v3 := Delete(u2, "json"), Delete(v2, "json");
    DeleteAround(u2, "http://", v2, "json", 0);
    var u4, v4 := Delete(u3, "https://"), Delete(v3, "https://");
    DeleteAround(u3, "http://", v3, "https://", 4);
    DeleteAround(u4, "http://", v4, "https:", 4);
  }

  /** Every plain "http://" in the reply is still in the cleaned text: no step of lines 45-55
      can cut or remove one, so the cleaned text holds at least as many. */
  lemma {:induction false} HttpLinkKept(data: string)
    ensures Contains(data, "http://") ==> Contains(CleanText(data), "http://")
    ensures Occurrences(CleanText(data), "http://") >= Occurrences(data, "http://")
  {
    if Contains(data, "http://") {
      ContainsIffOccurs(data, "http://");
      var i: nat :| OccursAt(data, "http://", i);
      CollapseKeepsSpaceFree(data, "http://", i);
    }
    CollapseKeepsOccurrences(data, "http://");
    DeletionsKeepHttp(Collapse(data));
    CleanTextShortened(data);
  }
}
